/**
  The handlers of the server that write to its database, and whole runs of them: the alerts on
  record and the stock share the database, over restarts and failures at any put.
*/
module ServerRuns {
  import opened Bytes
  import opened Numbers
  import opened KeyValueStore
  import opened AlertRecords
  import opened AlertRuns
  import opened Supplies
  import Stock = SuppliesStore

  // ---- Keys of other records ----

  /** A key of no alert, nor of the last id of one, nor of the stock. */
  predicate Aside(key: Text) {
    !Contains(key, ALERTS) && key != LAST_ALERT && key != FOOD && key != MEDICINE
  }

  lemma FixedKeysAside()
    ensures Aside(LAST_SUPPLIES) && Aside(LAST_EVENT) && Aside(LATEST_SUPPLIES)
    ensures LAST_ALERT != FOOD && LAST_ALERT != MEDICINE
    ensures LAST_EVENT != LAST_SUPPLIES && LATEST_SUPPLIES != LAST_SUPPLIES && LAST_ALERT != LAST_SUPPLIES
  {
    FixedKeysAreNoAlerts();
    DifferentLastKeys();
    assert |LAST_ALERT| == 10 && |LAST_EVENT| == 9 && |LAST_SUPPLIES| == 13 && |LATEST_SUPPLIES| == 14;
    assert |FOOD| == 4 && |MEDICINE| == 8;
  }

  /** Keys of records have an underscore behind the id, those of the stock have none. */
  lemma RecordKeyIsNoStock(prefix: Text, id: Text, timestamp: Text)
    ensures RecordKey(prefix, id, timestamp) != FOOD && RecordKey(prefix, id, timestamp) != MEDICINE
  {
    var key := RecordKey(prefix, id, timestamp);
    assert key[|prefix| + |id|] == UNDERSCORE;
    assert UNDERSCORE !in FOOD && UNDERSCORE !in MEDICINE;
    assert UNDERSCORE in key;
  }

  lemma SuppliesKey(n: int, timestamp: Text)
    requires 0 <= n && IsTimestamp(timestamp)
    ensures var key := RecordKey(SUPPLIES, Dec(n), timestamp);
      Aside(key) && key != LAST_SUPPLIES
  {
    var key := RecordKey(SUPPLIES, Dec(n), timestamp);
    IdText(n);
    PrefixLetters();
    OtherRecordsAreNoAlerts(SUPPLIES, Dec(n), timestamp);
    RecordKeyIsNoStock(SUPPLIES, Dec(n), timestamp);
    assert key[0] == SUPPLIES[0] != LAST_ALERT[0];
  }

  lemma NotificationKey(n: int, timestamp: Text)
    requires 0 <= n && IsTimestamp(timestamp)
    ensures var key := RecordKey(EMERGENCIES, Dec(n), timestamp);
      Aside(key) && key != LAST_SUPPLIES
  {
    var key := RecordKey(EMERGENCIES, Dec(n), timestamp);
    IdText(n);
    PrefixLetters();
    OtherRecordsAreNoAlerts(EMERGENCIES, Dec(n), timestamp);
    RecordKeyIsNoStock(EMERGENCIES, Dec(n), timestamp);
    assert key[0] == EMERGENCIES[0] != LAST_ALERT[0];
  }

  lemma ReadableExactly(s: Text)
    ensures Stoi(s).Some? ==> IntegerAt(s, Stoi(s).value)
    ensures Stoi(s).None? ==> !IntegerAt(s, 0)
  {
    hide IntegerAt, Stoi;
    StoiExact(s, if Stoi(s).Some? then Stoi(s).value else 0);
  }

  // ---- What puts keep ----

  ghost predicate SameStock(a: map<Text, Text>, b: map<Text, Text>) {
    Agree(a, b, FOOD) && Agree(a, b, MEDICINE)
  }

  /** Puts of other keys leave the alerts, their last id and the stock alone. */
  lemma {:induction false} AsideWritten(entries: map<Text, Text>, alerts: seq<Alert>, puts: seq<(Text, Text)>, n: nat)
    requires Holds(entries, alerts) && forall p <- puts :: Aside(p.0)
    ensures var after := Written(entries, puts, n);
      Holds(after, alerts) && Agree(entries, after, LAST_ALERT) && SameStock(entries, after)
    decreases |puts|
  {
    hide Holds, Contains;
    if puts != [] && n > 0 {
      HoldsAfterOther(entries, alerts, puts[0].0, puts[0].1);
      AsideWritten(entries[puts[0].0 := puts[0].1], alerts, puts[1..], n - 1);
    }
  }

  /** If the last id of the supplies is put, it is this one. */
  lemma {:induction false} SuppliesSeedWritten(entries: map<Text, Text>, puts: seq<(Text, Text)>, n: nat, id: int32)
    requires 0 <= id && forall p <- puts :: p.0 == LAST_SUPPLIES ==> p.1 == Dec(id)
    ensures Seed(Written(entries, puts, n), LAST_SUPPLIES) in {Seed(entries, LAST_SUPPLIES), id}
    decreases |puts|
  {
    StoiOfId(id);
    hide Stoi, Dec;
    if puts != [] && n > 0 {
      SuppliesSeedWritten(entries[puts[0].0 := puts[0].1], puts[1..], n - 1, id);
    }
  }

  /** Writing the stock leaves the alerts alone. */
  lemma StockKeepsAlerts(a: map<Text, Text>, b: map<Text, Text>, alerts: seq<Alert>)
    requires Holds(a, alerts) && forall key | key != FOOD && key != MEDICINE :: Agree(a, b, key)
    ensures Holds(b, alerts) && Agree(a, b, LAST_ALERT) && Agree(a, b, LAST_SUPPLIES)
  {
    hide Contains, KeyOf;
    FixedKeysAside();
    StockKeys();
    forall r | r in alerts ensures KeyOf(r) != FOOD && KeyOf(r) != MEDICINE && Agree(a, b, KeyOf(r)) {
      AlertKeyIsAlert(r);
    }
    forall i | 0 <= i < |alerts| && Latest(alerts, i) ensures b[KeyOf(alerts[i])] == alerts[i].text {
      assert alerts[i] in alerts;
    }
    forall key | key in b && Contains(key, ALERTS) ensures exists r <- alerts :: key == KeyOf(r) {
      assert Agree(a, b, key);
    }
  }

  /** The keys of the stock are no alerts. */
  lemma StockKeys()
    ensures !Contains(FOOD, ALERTS) && !Contains(MEDICINE, ALERTS)
  {
    assert UNDERSCORE !in FOOD && UNDERSCORE !in MEDICINE;
    forall i: nat ensures !StandsAt(FOOD, i, ALERTS) && !StandsAt(MEDICINE, i, ALERTS) {
      if StandsAt(FOOD, i, ALERTS) {
        AlertsWithin(FOOD, i);
      }
      if StandsAt(MEDICINE, i, ALERTS) {
        AlertsWithin(MEDICINE, i);
      }
    }
  }

  /** Nor does an alert change the stock, or the last id of the supplies. */
  lemma AlertKeepsStock(entries: map<Text, Text>, a: Alert, n: nat)
    requires Proper(a)
    ensures var after := Written(entries, AlertPuts(a), n);
      SameStock(entries, after) && Agree(entries, after, LAST_SUPPLIES)
  {
    FixedKeysAside();
    FixedKeysAreNoAlerts();
    RecordKeyIsNoStock(ALERTS, Dec(a.id), a.timestamp);
    AlertKeyIsAlert(a);
    hide Contains, Dec, RecordKey, Written;
    WrittenElsewhere(entries, AlertPuts(a), n, FOOD);
    WrittenElsewhere(entries, AlertPuts(a), n, MEDICINE);
    WrittenElsewhere(entries, AlertPuts(a), n, LAST_SUPPLIES);
  }

  /** What the puts of an alert come to, with what they leave alone. */
  lemma AlertKept(entries: map<Text, Text>, alerts: seq<Alert>, a: Alert, n: nat)
    requires Holds(entries, alerts) && Proper(a) && a.id <= INT_MAX
    ensures var after := Written(entries, AlertPuts(a), n);
      && Holds(after, alerts + if n > 0 then [a] else [])
      && Seed(after, LAST_ALERT) == (if n < 3 then Seed(entries, LAST_ALERT) else a.id)
      && Seed(after, LAST_SUPPLIES) == Seed(entries, LAST_SUPPLIES)
      && SameStock(entries, after)
  {
    HoldsAfterPuts(entries, alerts, a, n);
    AlertKeepsStock(entries, a, n);
    hide *;
    SeedAgrees(entries, Written(entries, AlertPuts(a), n), LAST_SUPPLIES);
    assert alerts + [] == alerts;
  }

  // ---- The puts of the handlers ----

  function TcpPuts(id: int32, json: Text, log: Text, timestamp: Text): seq<(Text, Text)> {
    [(RecordKey(SUPPLIES, Dec(id), timestamp), json), (LATEST_SUPPLIES, json),
     (LAST_SUPPLIES, Dec(id)), (LAST_EVENT, log)]
  }

  function UdpPuts(id: int32, json: Text, log: Text, timestamp: Text): seq<(Text, Text)> {
    [(LAST_SUPPLIES, Dec(id)), (RecordKey(SUPPLIES, Dec(id), timestamp), json), (LAST_EVENT, log)]
  }

  function NotificationPuts(id: int32, buffer: Text, timestamp: Text): seq<(Text, Text)> {
    [(RecordKey(EMERGENCIES, Dec(id), timestamp), buffer), (LAST_EVENT, buffer)]
  }

  /** Puts that concern no alert and no stock, and set the last id of the supplies to this one if at all. */
  ghost predicate Others(puts: seq<(Text, Text)>, id: int32) {
    forall p <- puts :: Aside(p.0) && (p.0 == LAST_SUPPLIES ==> p.1 == Dec(id))
  }

  lemma TcpPutsAside(id: int32, json: Text, log: Text, timestamp: Text)
    requires 0 <= id && IsTimestamp(timestamp)
    ensures Others(TcpPuts(id, json, log, timestamp), id)
  {
    FixedKeysAside();
    SuppliesKey(id, timestamp);
    hide Aside, Dec, RecordKey;
  }

  lemma UdpPutsAside(id: int32, json: Text, log: Text, timestamp: Text)
    requires 0 <= id && IsTimestamp(timestamp)
    ensures Others(UdpPuts(id, json, log, timestamp), id)
  {
    FixedKeysAside();
    SuppliesKey(id, timestamp);
    hide Aside, Dec, RecordKey;
  }

  lemma NotificationPutsAside(id: int32, buffer: Text, timestamp: Text)
    requires 0 <= id && IsTimestamp(timestamp)
    ensures Others(NotificationPuts(id, buffer, timestamp), 0)
  {
    FixedKeysAside();
    NotificationKey(id, timestamp);
    hide Aside, Dec, RecordKey;
  }

  lemma OthersKept(entries: map<Text, Text>, alerts: seq<Alert>, puts: seq<(Text, Text)>, n: nat, id: int32)
    requires Holds(entries, alerts) && 0 <= id && Others(puts, id)
    ensures var after := Written(entries, puts, n);
      && Holds(after, alerts) && SameStock(entries, after)
      && Seed(after, LAST_ALERT) == Seed(entries, LAST_ALERT)
      && Seed(after, LAST_SUPPLIES) in {Seed(entries, LAST_SUPPLIES), id}
  {
    hide Aside, Dec, Holds, Seed, Written;
    AsideWritten(entries, alerts, puts, n);
    SuppliesSeedWritten(entries, puts, n, id);
    SeedAgrees(entries, Written(entries, puts, n), LAST_ALERT);
  }

  // ---- The entries after the puts ----

  /** The text of the key of a record. */
  function KeyText(prefix: string, id: int, timestamp: Text): Text
    requires forall i | 0 <= i < |prefix| :: prefix[i] < 128 as char
  {
    Ascii(prefix) + Dec(id) + Ascii("_") + timestamp
  }

  /** What the first puts of an update over TCP leave in the database, and nothing else changes. */
  ghost predicate TcpRecorded(a: map<Text, Text>, b: map<Text, Text>, id: int, json: Text, log: Text,
                              timestamp: Text, puts: nat)
  {
    var key := KeyText("supplies_", id, timestamp);
    && IsSet(a, b, key, json, puts >= 1)
    && IsSet(a, b, Ascii("latestSupplies"), json, puts >= 2)
    && IsSet(a, b, Ascii("last_supplies"), Dec(id), puts >= 3)
    && IsSet(a, b, Ascii("lastEvent"), log, puts >= 4)
    && forall k | k !in [key, Ascii("latestSupplies"), Ascii("last_supplies"), Ascii("lastEvent")] :: Agree(a, b, k)
  }

  ghost predicate UdpRecorded(a: map<Text, Text>, b: map<Text, Text>, id: int, json: Text, log: Text,
                              timestamp: Text, puts: nat)
  {
    var key := KeyText("supplies_", id, timestamp);
    && IsSet(a, b, Ascii("last_supplies"), Dec(id), puts >= 1)
    && IsSet(a, b, key, json, puts >= 2)
    && IsSet(a, b, Ascii("lastEvent"), log, puts >= 3)
    && forall k | k !in [key, Ascii("last_supplies"), Ascii("lastEvent")] :: Agree(a, b, k)
  }

  ghost predicate NotificationRecorded(a: map<Text, Text>, b: map<Text, Text>, id: int, buffer: Text,
                                       timestamp: Text, puts: nat)
  {
    var key := KeyText("emergencyNotification_", id, timestamp);
    && IsSet(a, b, key, buffer, puts >= 1)
    && IsSet(a, b, Ascii("lastEvent"), buffer, puts >= 2)
    && forall k | k !in [key, Ascii("lastEvent")] :: Agree(a, b, k)
  }

  ghost predicate AlertRecorded(a: map<Text, Text>, b: map<Text, Text>, id: int, message: Text,
                                timestamp: Text, puts: nat)
  {
    var key := KeyText("alert_", id, timestamp);
    && IsSet(a, b, key, message, puts >= 1)
    && IsSet(a, b, Ascii("lastEvent"), message, puts >= 2)
    && IsSet(a, b, Ascii("last_alert"), Dec(id), puts >= 3)
    && forall k | k !in [key, Ascii("lastEvent"), Ascii("last_alert")] :: Agree(a, b, k)
  }

  /** A record key is the text of its parts, and no key that does not begin with the same letter. */
  lemma KeyTextExact(prefix: string, id: int, timestamp: Text)
    requires prefix != "" && forall i | 0 <= i < |prefix| :: prefix[i] < 128 as char
    ensures RecordKey(Ascii(prefix), Dec(id), timestamp) == KeyText(prefix, id, timestamp)
    ensures KeyText(prefix, id, timestamp)[0] == prefix[0] as int
  {
    assert [UNDERSCORE] == Ascii("_");
  }

  lemma FixedKeysDiffer()
    ensures LAST_EVENT != LAST_SUPPLIES && LATEST_SUPPLIES != LAST_SUPPLIES && LAST_ALERT != LAST_EVENT
    ensures LATEST_SUPPLIES != LAST_EVENT
    ensures LAST_EVENT[0] == LATEST_SUPPLIES[0] == LAST_SUPPLIES[0] == LAST_ALERT[0] == 'l' as int
  {
    FixedKeysAside();
    assert |LAST_ALERT| == 10 && |LAST_EVENT| == 9 && |LATEST_SUPPLIES| == 14;
  }

  lemma TcpIsRecorded(entries: map<Text, Text>, id: int32, json: Text, log: Text, timestamp: Text, puts: nat)
    ensures TcpRecorded(
              entries, Written(entries, TcpPuts(id, json, log, timestamp), puts), id, json, log, timestamp, puts)
  {
    var list := TcpPuts(id, json, log, timestamp);
    KeyTextExact("supplies_", id, timestamp);
    FixedKeysDiffer();
    hide Written, KeyText, RecordKey, Dec, IsSet, Agree;
    WrittenAt(entries, list, puts, 0);
    WrittenAt(entries, list, puts, 1);
    WrittenAt(entries, list, puts, 2);
    WrittenAt(entries, list, puts, 3);
    forall k | k !in [list[0].0, LATEST_SUPPLIES, LAST_SUPPLIES, LAST_EVENT]
      ensures Agree(entries, Written(entries, list, puts), k)
    {
      WrittenElsewhere(entries, list, puts, k);
    }
  }

  lemma UdpIsRecorded(entries: map<Text, Text>, id: int32, json: Text, log: Text, timestamp: Text, puts: nat)
    ensures UdpRecorded(
              entries, Written(entries, UdpPuts(id, json, log, timestamp), puts), id, json, log, timestamp, puts)
  {
    var list := UdpPuts(id, json, log, timestamp);
    KeyTextExact("supplies_", id, timestamp);
    FixedKeysDiffer();
    hide Written, KeyText, RecordKey, Dec, IsSet, Agree;
    WrittenAt(entries, list, puts, 0);
    WrittenAt(entries, list, puts, 1);
    WrittenAt(entries, list, puts, 2);
    forall k | k !in [list[1].0, LAST_SUPPLIES, LAST_EVENT]
      ensures Agree(entries, Written(entries, list, puts), k)
    {
      WrittenElsewhere(entries, list, puts, k);
    }
  }

  lemma NotificationIsRecorded(entries: map<Text, Text>, id: int32, buffer: Text, timestamp: Text, puts: nat)
    ensures NotificationRecorded(
              entries, Written(entries, NotificationPuts(id, buffer, timestamp), puts), id, buffer, timestamp, puts)
  {
    var list := NotificationPuts(id, buffer, timestamp);
    KeyTextExact("emergencyNotification_", id, timestamp);
    FixedKeysDiffer();
    hide Written, KeyText, RecordKey, Dec, IsSet, Agree;
    WrittenAt(entries, list, puts, 0);
    WrittenAt(entries, list, puts, 1);
    forall k | k !in [list[0].0, LAST_EVENT] ensures Agree(entries, Written(entries, list, puts), k) {
      WrittenElsewhere(entries, list, puts, k);
    }
  }

  lemma AlertIsRecorded(entries: map<Text, Text>, id: int, message: Text, timestamp: Text, puts: nat)
    ensures AlertRecorded(
              entries, Written(entries, AlertPuts(Alert(id, timestamp, message)), puts), id, message, timestamp, puts)
  {
    var list := AlertPuts(Alert(id, timestamp, message));
    KeyTextExact("alert_", id, timestamp);
    FixedKeysDiffer();
    hide Written, KeyText, RecordKey, Dec, IsSet, Agree;
    WrittenAt(entries, list, puts, 0);
    WrittenAt(entries, list, puts, 1);
    WrittenAt(entries, list, puts, 2);
    forall k | k !in [list[0].0, LAST_EVENT, LAST_ALERT] ensures Agree(entries, Written(entries, list, puts), k) {
      WrittenElsewhere(entries, list, puts, k);
    }
  }

  /** What start makes of the database. */
  function Started(entries: map<Text, Text>, puts: nat): map<Text, Text> {
    Stock.Initialised(
      Written(Seeded(Seeded(entries, LAST_SUPPLIES), LAST_ALERT), [(LAST_EVENT, Ascii("Server just started"))], puts))
  }

  /** An id in the database has been kept if it can be read, and is 0 otherwise. */
  ghost predicate IsSeeded(a: map<Text, Text>, b: map<Text, Text>, key: Text) {
    if key in a && exists n :: IntegerAt(a[key], n) then Agree(a, b, key) else key in b && b[key] == Ascii("0")
  }

  /** A stock in the database has been kept, or, if there is none, there is this text now. */
  predicate IsInitialised(a: map<Text, Text>, b: map<Text, Text>, key: Text, text: Text) {
    if key in a then Agree(a, b, key) else key in b && b[key] == text
  }

  predicate StocksInitialised(a: map<Text, Text>, b: map<Text, Text>) {
    && IsInitialised(a, b, Ascii("food"), InitialText(Stock.FOOD_NAMES))
    && IsInitialised(a, b, Ascii("medicine"), InitialText(Stock.MEDICINE_NAMES))
  }

  /** What a start, with this many puts of its event, leaves in the database, and nothing else changes. */
  ghost predicate StartRecorded(a: map<Text, Text>, b: map<Text, Text>, puts: nat) {
    && IsSeeded(a, b, LAST_SUPPLIES) && IsSeeded(a, b, LAST_ALERT)
    && IsSet(a, b, LAST_EVENT, Ascii("Server just started"), puts >= 1)
    && StocksInitialised(a, b)
    && forall k | k !in [LAST_SUPPLIES, LAST_ALERT, LAST_EVENT, FOOD, MEDICINE] :: Agree(a, b, k)
  }

  lemma SeededExactly(entries: map<Text, Text>, key: Text)
    ensures IsSeeded(entries, Seeded(entries, key), key)
  {
    hide IntegerAt, Stoi;
    if key in entries {
      var s := entries[key];
      ReadableExactly(s);
      forall n ensures IntegerAt(s, n) ==> Stoi(s).Some? {
        StoiExact(s, n);
      }
    }
  }

  /** What the four steps of a start change: one key each, and two for the stock. */
  lemma StartSteps(entries: map<Text, Text>, puts: nat)
      returns (one: map<Text, Text>, two: map<Text, Text>, three: map<Text, Text>)
    ensures IsSeeded(entries, one, LAST_SUPPLIES) && forall k | k != LAST_SUPPLIES :: Agree(entries, one, k)
    ensures IsSeeded(one, two, LAST_ALERT) && forall k | k != LAST_ALERT :: Agree(one, two, k)
    ensures IsSet(two, three, LAST_EVENT, Ascii("Server just started"), puts >= 1)
    ensures forall k | k != LAST_EVENT :: Agree(two, three, k)
    ensures Started(entries, puts) == Stock.Initialised(three)
  {
    hide IsSeeded, Stoi, Stock.Initialised;
    one := Seeded(entries, LAST_SUPPLIES);
    two := Seeded(one, LAST_ALERT);
    three := Written(two, [(LAST_EVENT, Ascii("Server just started"))], puts);
    SeededExactly(entries, LAST_SUPPLIES);
    SeededExactly(one, LAST_ALERT);
    OneWritten(two, LAST_EVENT, Ascii("Server just started"), puts);
  }

  lemma InitialisedExactly(entries: map<Text, Text>)
    ensures var after := Stock.Initialised(entries);
      && IsInitialised(entries, after, FOOD, InitialText(Stock.FOOD_NAMES))
      && IsInitialised(entries, after, MEDICINE, InitialText(Stock.MEDICINE_NAMES))
      && forall k | k != FOOD && k != MEDICINE :: Agree(entries, after, k)
  {
    Stock.DifferentKeys();
    hide InitialText;
  }

  lemma StartIsRecorded(entries: map<Text, Text>, puts: nat)
    ensures StartRecorded(entries, Started(entries, puts), puts)
  {
    FixedKeysDiffer();
    FixedKeysAside();
    Stock.DifferentKeys();
    hide IntegerAt, Started, Stock.Initialised, InitialText, Contains, IsSeeded, IsInitialised, IsSet;
    var one, two, three := StartSteps(entries, puts);
    InitialisedExactly(three);
    var after := Stock.Initialised(three);
    forall k
      ensures k != LAST_SUPPLIES ==> Agree(entries, one, k)
      ensures k != LAST_SUPPLIES && k != LAST_ALERT ==> Agree(entries, two, k)
      ensures k != LAST_ALERT && k != LAST_EVENT ==> Agree(one, three, k)
      ensures k !in [LAST_SUPPLIES, LAST_ALERT, LAST_EVENT] ==> Agree(entries, three, k)
    {
      assert k != LAST_SUPPLIES ==> Agree(entries, one, k);
      assert k != LAST_ALERT ==> Agree(one, two, k);
      assert k != LAST_EVENT ==> Agree(two, three, k);
    }
    forall k | k != FOOD && k != MEDICINE
      ensures k != LAST_ALERT && k != LAST_EVENT ==> Agree(one, after, k)
      ensures k != LAST_EVENT ==> Agree(two, after, k)
      ensures Agree(three, after, k)
      ensures k !in [LAST_SUPPLIES, LAST_ALERT, LAST_EVENT] ==> Agree(entries, after, k)
    {
      assert Agree(three, after, k);
      assert k != LAST_EVENT ==> Agree(two, three, k);
      assert k != LAST_ALERT && k != LAST_EVENT ==> Agree(one, three, k);
      assert k !in [LAST_SUPPLIES, LAST_ALERT, LAST_EVENT] ==> Agree(entries, three, k);
    }
    SeededBetween(entries, entries, one, after, LAST_SUPPLIES);
    SeededBetween(entries, one, two, after, LAST_ALERT);
    SetBetween(entries, two, three, after, LAST_EVENT, Ascii("Server just started"), puts >= 1);
    InitialisedFrom(entries, three, after, FOOD, InitialText(Stock.FOOD_NAMES));
    InitialisedFrom(entries, three, after, MEDICINE, InitialText(Stock.MEDICINE_NAMES));
  }

  lemma SeededBetween(a: map<Text, Text>, b: map<Text, Text>, c: map<Text, Text>, d: map<Text, Text>, key: Text)
    requires Agree(a, b, key) && IsSeeded(b, c, key) && Agree(c, d, key)
    ensures IsSeeded(a, d, key)
  {
    hide IntegerAt;
  }

  lemma SetBetween(a: map<Text, Text>, b: map<Text, Text>, c: map<Text, Text>, d: map<Text, Text>,
                   key: Text, value: Text, put: bool)
    requires Agree(a, b, key) && IsSet(b, c, key, value, put) && Agree(c, d, key)
    ensures IsSet(a, d, key, value, put)
  {
  }

  lemma InitialisedFrom(a: map<Text, Text>, b: map<Text, Text>, c: map<Text, Text>, key: Text, text: Text)
    requires Agree(a, b, key) && IsInitialised(b, c, key, text)
    ensures IsInitialised(a, c, key, text)
  {
  }

  class Server {
    const db: RocksDbWrapper
    var suppliesIdGen: IdGen
    var alertsIdGen: IdGen
    var emergNotifIdGen: IdGen
    /** The alerts put on record so far, by this server and those before it. */
    ghost var recorded: seq<Alert>

    constructor (db: RocksDbWrapper, ghost recorded: seq<Alert>)
      ensures this.db == db && this.recorded == recorded
      ensures fresh(suppliesIdGen) && fresh(alertsIdGen) && fresh(emergNotifIdGen) && Generators()
      ensures suppliesIdGen.counter == alertsIdGen.counter == emergNotifIdGen.counter == 0
    {
      this.db, this.recorded := db, recorded;
      suppliesIdGen := new IdGen();
      alertsIdGen := new IdGen();
      emergNotifIdGen := new IdGen();
    }

    ghost predicate Generators()
      reads this
    {
      suppliesIdGen != alertsIdGen && suppliesIdGen != emergNotifIdGen && alertsIdGen != emergNotifIdGen
    }

    /** The last id of an alert in the database, and the next of this process. */
    ghost function CurrentIds(): Ids
      reads this, db, alertsIdGen
    {
      Ids(Seed(db.entries, LAST_ALERT), alertsIdGen.counter)
    }

    /** The database holds the recorded alerts, and the generators are past the ids in it. */
    ghost predicate Ready()
      reads this, db, suppliesIdGen, alertsIdGen, emergNotifIdGen
    {
      && Generators() && Holds(db.entries, recorded)
      && 0 <= Seed(db.entries, LAST_ALERT) < alertsIdGen.counter
      && 0 <= Seed(db.entries, LAST_SUPPLIES) < suppliesIdGen.counter
      && 0 <= emergNotifIdGen.counter
    }

    ghost function Objects(): set<object>
      reads this
    {
      {this, suppliesIdGen, alertsIdGen, emergNotifIdGen}
    }

    /** The server can hand out this many more ids of each kind. */
    ghost predicate ReadyFor(n: nat)
      reads this, db, suppliesIdGen, alertsIdGen, emergNotifIdGen
    {
      && Ready() && alertsIdGen.counter + n <= INT_MAX
      && suppliesIdGen.counter + n <= INT_MAX && emergNotifIdGen.counter + n <= INT_MAX
    }

    /** getLastId: a missing or unreadable id is set to 0. */
    method GetLastId(key: Text) returns (id: int32)
      modifies db
      ensures id == Seed(old(db.entries), key) && db.entries == Seeded(old(db.entries), key)
      ensures if key in old(db.entries) && IntegerAt(old(db.entries)[key], id) then db.entries == old(db.entries)
        else id == 0 && db.entries == old(db.entries)[key := Ascii("0")]
    {
      hide IntegerAt, Stoi;
      if key in db.entries {
        ReadableExactly(db.entries[key]);
      }
      var value := db.GetValueByKey(key);
      if value.Some? && Stoi(value.value).Some? {
        return Stoi(value.value).value;
      }
      db.Put(key, Ascii("0"));
      id := 0;
    }

    /** The part of start before the sockets are set up, on a database that opens for the ids and the stock. */
    method Start(puts: nat)
      requires Seed(db.entries, LAST_ALERT) < INT_MAX && Seed(db.entries, LAST_SUPPLIES) < INT_MAX && Generators()
      modifies db, suppliesIdGen, alertsIdGen
      ensures db.entries == Started(old(db.entries), puts) && StartRecorded(old(db.entries), db.entries, puts)
      ensures alertsIdGen.counter == Seed(old(db.entries), LAST_ALERT) + 1
      ensures suppliesIdGen.counter == Seed(old(db.entries), LAST_SUPPLIES) + 1
    {
      hide StartRecorded;
      StartIsRecorded(db.entries, puts);
      DifferentLastKeys();
      SeedOfSeeded(db.entries, LAST_SUPPLIES);
      SeedAgrees(db.entries, Seeded(db.entries, LAST_SUPPLIES), LAST_ALERT);
      OneWritten(Seeded(Seeded(db.entries, LAST_SUPPLIES), LAST_ALERT), LAST_EVENT, Ascii("Server just started"), puts);
      hide Seed, Seeded, Stock.Initialised, Written, Ascii;
      var lastSuppliesId := GetLastId(LAST_SUPPLIES);
      var lastAlertsId := GetLastId(LAST_ALERT);
      suppliesIdGen.SetId(lastSuppliesId);
      alertsIdGen.SetId(lastAlertsId);
      var left := db.PutNext(LAST_EVENT, Ascii("Server just started"), puts);
      Stock.InitSupplies(db);
    }

    /**
      The part of checkAlerts that records an alert. The id is taken before the database is
      opened, and is lost if that fails.
    */
    method CheckAlerts(message: Text, timestamp: Text, puts: nat)
      requires Ready() && IsTimestamp(timestamp) && alertsIdGen.counter < INT_MAX
      modifies this`recorded, db, alertsIdGen
      ensures Ready() && CurrentIds() == Next(old(CurrentIds()), AlertRead(message, timestamp, puts))
      ensures recorded == old(recorded) + Put(old(CurrentIds()), AlertRead(message, timestamp, puts))
      ensures db.entries
           == Written(old(db.entries), AlertPuts(Alert(old(alertsIdGen.counter), timestamp, message)), puts)
      ensures AlertRecorded(old(db.entries), db.entries, old(alertsIdGen.counter), message, timestamp, puts)
      ensures SameStock(old(db.entries), db.entries)
    {
      hide AlertRecorded;
      AlertIsRecorded(db.entries, alertsIdGen.counter, message, timestamp, puts);
      ghost var entries, a := db.entries, Alert(alertsIdGen.counter, timestamp, message);
      AlertKept(entries, recorded, a, puts);
      hide Seed, Holds, RecordKey, Dec, Written, SameStock, AlertPuts;
      var id := alertsIdGen.GetNextId();
      var key := RecordKey(ALERTS, id, timestamp);
      PutAlert(key, message, id, puts, a);
      recorded := recorded + if puts > 0 then [a] else [];
    }

    /** The three puts of checkAlerts. */
    method PutAlert(key: Text, message: Text, id: Text, puts: nat, ghost a: Alert)
      requires key == KeyOf(a) && message == a.text && id == Dec(a.id)
      modifies db
      ensures db.entries == Written(old(db.entries), AlertPuts(a), puts)
    {
      hide KeyOf, Dec, Written;
      ghost var list := AlertPuts(a);
      var left := db.PutNext(key, message, puts);
      left := db.PutNext(LAST_EVENT, message, left);
      left := db.PutNext(LAST_ALERT, id, left);
      NothingWritten(db.entries, list[1..][1..][1..], left);
    }

    /** The records of an update over TCP. */
    method RecordTcpUpdate(json: Text, log: Text, timestamp: Text, puts: nat)
      requires Ready() && IsTimestamp(timestamp) && suppliesIdGen.counter < INT_MAX
      modifies db, suppliesIdGen
      ensures Ready() && CurrentIds() == old(CurrentIds()) && suppliesIdGen.counter == old(suppliesIdGen.counter) + 1
      ensures db.entries == Written(old(db.entries), TcpPuts(old(suppliesIdGen.counter), json, log, timestamp), puts)
      ensures TcpRecorded(old(db.entries), db.entries, old(suppliesIdGen.counter), json, log, timestamp, puts)
      ensures SameStock(old(db.entries), db.entries)
    {
      hide TcpRecorded;
      TcpIsRecorded(db.entries, suppliesIdGen.counter, json, log, timestamp, puts);
      ghost var list := TcpPuts(suppliesIdGen.counter, json, log, timestamp);
      TcpPutsAside(suppliesIdGen.counter, json, log, timestamp);
      OthersKept(db.entries, recorded, list, puts, suppliesIdGen.counter);
      hide Seed, Holds, RecordKey, Dec, Written, SameStock;
      var id := suppliesIdGen.GetNextId();
      var key := RecordKey(SUPPLIES, id, timestamp);
      PutUpdate(key, json, id, log, puts, list);
    }

    /** The four puts of an update over TCP. */
    method PutUpdate(key: Text, json: Text, id: Text, log: Text, puts: nat, ghost list: seq<(Text, Text)>)
      requires list == [(key, json), (LATEST_SUPPLIES, json), (LAST_SUPPLIES, id), (LAST_EVENT, log)]
      modifies db
      ensures db.entries == Written(old(db.entries), list, puts)
    {
      hide Written;
      var left := db.PutNext(key, json, puts);
      left := db.PutNext(LATEST_SUPPLIES, json, left);
      left := db.PutNext(LAST_SUPPLIES, id, left);
      left := db.PutNext(LAST_EVENT, log, left);
      NothingWritten(db.entries, list[1..][1..][1..][1..], left);
    }

    /** The records of an update over UDP. */
    method RecordUdpUpdate(json: Text, log: Text, timestamp: Text, puts: nat)
      requires Ready() && IsTimestamp(timestamp) && suppliesIdGen.counter < INT_MAX
      modifies db, suppliesIdGen
      ensures Ready() && CurrentIds() == old(CurrentIds()) && suppliesIdGen.counter == old(suppliesIdGen.counter) + 1
      ensures db.entries == Written(old(db.entries), UdpPuts(old(suppliesIdGen.counter), json, log, timestamp), puts)
      ensures UdpRecorded(old(db.entries), db.entries, old(suppliesIdGen.counter), json, log, timestamp, puts)
      ensures SameStock(old(db.entries), db.entries)
    {
      hide UdpRecorded;
      UdpIsRecorded(db.entries, suppliesIdGen.counter, json, log, timestamp, puts);
      ghost var list := UdpPuts(suppliesIdGen.counter, json, log, timestamp);
      UdpPutsAside(suppliesIdGen.counter, json, log, timestamp);
      OthersKept(db.entries, recorded, list, puts, suppliesIdGen.counter);
      hide Seed, Holds, RecordKey, Dec, Written, SameStock;
      var id := suppliesIdGen.GetNextId();
      var key := RecordKey(SUPPLIES, id, timestamp);
      var left := db.PutNext(LAST_SUPPLIES, id, puts);
      left := db.PutNext(key, json, left);
      left := db.PutNext(LAST_EVENT, log, left);
      NothingWritten(db.entries, list[1..][1..][1..], left);
    }

    /** The record of an emergency notification. */
    method RecordNotification(buffer: Text, timestamp: Text, puts: nat)
      requires Ready() && IsTimestamp(timestamp) && emergNotifIdGen.counter < INT_MAX
      modifies db, emergNotifIdGen
      ensures Ready() && CurrentIds() == old(CurrentIds())
        && emergNotifIdGen.counter == old(emergNotifIdGen.counter) + 1
      ensures db.entries
           == Written(old(db.entries), NotificationPuts(old(emergNotifIdGen.counter), buffer, timestamp), puts)
      ensures NotificationRecorded(old(db.entries), db.entries, old(emergNotifIdGen.counter), buffer, timestamp, puts)
      ensures SameStock(old(db.entries), db.entries)
    {
      hide NotificationRecorded;
      NotificationIsRecorded(db.entries, emergNotifIdGen.counter, buffer, timestamp, puts);
      ghost var list := NotificationPuts(emergNotifIdGen.counter, buffer, timestamp);
      NotificationPutsAside(emergNotifIdGen.counter, buffer, timestamp);
      OthersKept(db.entries, recorded, list, puts, 0);
      hide Seed, Holds, RecordKey, Dec, Written, SameStock;
      var id := emergNotifIdGen.GetNextId();
      var key := RecordKey(EMERGENCIES, id, timestamp);
      var left := db.PutNext(key, buffer, puts);
      left := db.PutNext(LAST_EVENT, buffer, left);
      NothingWritten(db.entries, list[1..][1..], left);
    }

    /** The put of the handlers of other messages. */
    method RecordEvent(log: Text, puts: nat)
      requires Ready()
      modifies db
      ensures Ready() && CurrentIds() == old(CurrentIds())
      ensures db.entries == Written(old(db.entries), [(LAST_EVENT, log)], puts)
      ensures SameStock(old(db.entries), db.entries)
    {
      FixedKeysAside();
      OneWritten(db.entries, LAST_EVENT, log, puts);
      OthersKept(db.entries, recorded, [(LAST_EVENT, log)], puts, 0);
      hide Seed, Holds, Written, SameStock;
      var left := db.PutNext(LAST_EVENT, log, puts);
    }
  }

  // ---- Events ----

  /**
    Time stamps are those of the server. An update over UDP that cannot read the stock uses a
    null pointer; one over TCP is dropped.
  */
  predicate Regular(e: Event) {
    match e
    case AlertRead(_, timestamp, _) => IsTimestamp(timestamp)
    case TcpUpdate(request, _, _, timestamp, _) => IsTimestamp(timestamp) && request.Terminated()
    case UdpUpdate(request, _, _, timestamp, _) => IsTimestamp(timestamp) && request.Terminated() && request.Read()
    case Notification(_, timestamp, _) => IsTimestamp(timestamp)
    case _ => true
  }

  /** The update of the stock that an event asks for, if any. */
  function RequestOf(e: Event): seq<Stock.Request> {
    if e.TcpUpdate? || e.UdpUpdate? then [e.request] else []
  }

  function Requests(events: seq<Event>): seq<Stock.Request>
    decreases |events|
  {
    if events == [] then [] else RequestOf(events[0]) + Requests(events[1..])
  }

  lemma StockedAgrees(a: map<Text, Text>, b: map<Text, Text>, food: seq<int32>, medicine: seq<int32>)
    requires SameStock(a, b) && Stock.Stocked(a, food, medicine)
    ensures Stock.Stocked(b, food, medicine)
  {
    hide Reads;
  }

  /** A start keeps the alerts and the last ids, and finds the stock or starts with none. */
  lemma StartKept(entries: map<Text, Text>, alerts: seq<Alert>, puts: nat, food: seq<int32>, medicine: seq<int32>)
    requires Holds(entries, alerts) && Stock.StartsWith(entries, food, medicine)
    ensures var after := Started(entries, puts);
      && Holds(after, alerts) && Stock.Stocked(after, food, medicine)
      && Seed(after, LAST_ALERT) == Seed(entries, LAST_ALERT)
      && Seed(after, LAST_SUPPLIES) == Seed(entries, LAST_SUPPLIES)
  {
    FixedKeysAside();
    FixedKeysAreNoAlerts();
    hide Contains, Holds, Stoi, Seed, Stock.StartsWith, Stock.Stocked, Stock.Initialised, Written;
    var one := Seeded(entries, LAST_SUPPLIES);
    SeededKept(entries, alerts, LAST_SUPPLIES, LAST_ALERT);
    var two := Seeded(one, LAST_ALERT);
    SeededKept(one, alerts, LAST_ALERT, LAST_SUPPLIES);
    var three := Written(two, [(LAST_EVENT, Ascii("Server just started"))], puts);
    OneWritten(two, LAST_EVENT, Ascii("Server just started"), puts);
    HoldsAfterOther(two, alerts, LAST_EVENT, Ascii("Server just started"));
    SeedAgrees(two, three, LAST_ALERT);
    SeedAgrees(two, three, LAST_SUPPLIES);
    StartsAgrees(entries, three, food, medicine);
    Stock.InitialStock(three, food, medicine);
    StockKeepsAlerts(three, Stock.Initialised(three), alerts);
    SeedAgrees(three, Stock.Initialised(three), LAST_ALERT);
    SeedAgrees(three, Stock.Initialised(three), LAST_SUPPLIES);
  }

  lemma SeededKept(entries: map<Text, Text>, alerts: seq<Alert>, key: Text, other: Text)
    requires Holds(entries, alerts) && !Contains(key, ALERTS) && key != other && key != FOOD && key != MEDICINE
    ensures Holds(Seeded(entries, key), alerts) && Seed(Seeded(entries, key), key) == Seed(entries, key)
    ensures Seed(Seeded(entries, key), other) == Seed(entries, other)
    ensures SameStock(entries, Seeded(entries, key))
  {
    hide Contains, Holds, Stoi, Seed;
    HoldsAfterOther(entries, alerts, key, Ascii("0"));
    SeedOfSeeded(entries, key);
    SeedAgrees(entries, Seeded(entries, key), other);
  }

  lemma StartsAgrees(a: map<Text, Text>, b: map<Text, Text>, food: seq<int32>, medicine: seq<int32>)
    requires SameStock(a, b) && Stock.StartsWith(a, food, medicine)
    ensures Stock.StartsWith(b, food, medicine)
  {
    hide Reads;
  }

  // ---- Runs ----

  /** The part of an update that concerns the stock. */
  method UpdateStock(server: Server, r: Stock.Request, ghost food: seq<int32>, ghost medicine: seq<int32>)
      returns (ok: bool, ghost food': seq<int32>, ghost medicine': seq<int32>)
    requires server.Ready() && Stock.Stocked(server.db.entries, food, medicine) && Stock.Serves(r, food, medicine)
    modifies server.db
    ensures server.Ready() && server.CurrentIds() == old(server.CurrentIds()) && ok == r.Read()
    ensures Stock.Stocked(server.db.entries, food', medicine') && ServedBoth(r, food, medicine, food', medicine')
  {
    hide Holds, Seed, Stock.Stocked, Stock.Serves, Stock.Served;
    ghost var entries := server.db.entries;
    ok, food', medicine' := Stock.Serve(server.db, r, food, medicine);
    StockKeepsAlerts(entries, server.db.entries, server.recorded);
    SeedAgrees(entries, server.db.entries, LAST_ALERT);
    SeedAgrees(entries, server.db.entries, LAST_SUPPLIES);
  }

  /** The stock before and after a request. */
  ghost predicate ServedBoth(
      r: Stock.Request, food: seq<int32>, medicine: seq<int32>, food': seq<int32>, medicine': seq<int32>)
  {
    && |food| == |Stock.FOOD_NAMES| && food' == Stock.Served(food, r, FOOD, Stock.FOOD_NAMES)
    && |medicine| == |Stock.MEDICINE_NAMES| && medicine' == Stock.Served(medicine, r, MEDICINE, Stock.MEDICINE_NAMES)
  }

  /** One event at a running server, or a restart of it. */
  method Handle(server: Server, e: Event, ghost food: seq<int32>, ghost medicine: seq<int32>, ghost n: nat)
      returns (next: Server, ghost food': seq<int32>, ghost medicine': seq<int32>)
    requires server.ReadyFor(n + 1) && Regular(e) && Stock.Stocked(server.db.entries, food, medicine)
    requires forall r <- RequestOf(e) :: Stock.Serves(r, food, medicine)
    modifies server.Objects(), server.db
    ensures next.ReadyFor(n) && next.db == server.db && fresh(next.Objects() - old(server.Objects()))
    ensures next.CurrentIds() == Next(old(server.CurrentIds()), e)
    ensures next.recorded == old(server.recorded) + Put(old(server.CurrentIds()), e)
    ensures Stock.Stocked(next.db.entries, food', medicine')
    ensures RequestOf(e) == [] ==> food' == food && medicine' == medicine
    ensures forall r <- RequestOf(e) :: ServedBoth(r, food, medicine, food', medicine')
  {
    next, food', medicine' := server, food, medicine;
    hide Holds, Seed, Stock.Stocked, Stock.Serves, Stock.Served, SameStock, Written, IsTimestamp, ServedBoth;
    hide Server.Ready, Server.Generators;
    match e {
      case TcpUpdate(request, json, log, timestamp, puts) =>
        food', medicine' := HandleTcpUpdate(server, request, json, log, timestamp, puts, food, medicine, n);
      case UdpUpdate(request, json, log, timestamp, puts) =>
        food', medicine' := HandleUdpUpdate(server, request, json, log, timestamp, puts, food, medicine, n);
      case Restart(puts) =>
        next := HandleRestart(server, puts, food, medicine, n);
      case _ =>
        HandleRecord(server, e, food, medicine, n);
    }
  }

  /** The handlers that leave the stock alone. */
  method HandleRecord(server: Server, e: Event, ghost food: seq<int32>, ghost medicine: seq<int32>, ghost n: nat)
    requires server.ReadyFor(n + 1) && Regular(e) && Stock.Stocked(server.db.entries, food, medicine)
    requires e.AlertRead? || e.Notification? || e.OtherEvent?
    modifies server`recorded, server.alertsIdGen, server.emergNotifIdGen, server.db
    ensures server.ReadyFor(n) && server.CurrentIds() == Next(old(server.CurrentIds()), e)
    ensures server.recorded == old(server.recorded) + Put(old(server.CurrentIds()), e)
    ensures Stock.Stocked(server.db.entries, food, medicine)
  {
    ghost var entries := server.db.entries;
    hide Holds, Seed, Stock.Stocked, SameStock, Written, IsTimestamp;
    match e {
      case AlertRead(message, timestamp, puts) =>
        server.CheckAlerts(message, timestamp, puts);
      case Notification(buffer, timestamp, puts) =>
        server.RecordNotification(buffer, timestamp, puts);
      case OtherEvent(log, puts) =>
        server.RecordEvent(log, puts);
    }
    StockedAgrees(entries, server.db.entries, food, medicine);
  }

  method HandleTcpUpdate(
      server: Server, r: Stock.Request, json: Text, log: Text, timestamp: Text, puts: nat,
      ghost food: seq<int32>, ghost medicine: seq<int32>, ghost n: nat)
      returns (ghost food': seq<int32>, ghost medicine': seq<int32>)
    requires server.ReadyFor(n + 1) && IsTimestamp(timestamp)
    requires Stock.Stocked(server.db.entries, food, medicine) && Stock.Serves(r, food, medicine)
    modifies server.suppliesIdGen, server.db
    ensures server.ReadyFor(n) && server.CurrentIds() == old(server.CurrentIds())
    ensures Stock.Stocked(server.db.entries, food', medicine') && ServedBoth(r, food, medicine, food', medicine')
  {
    hide Holds, Seed, Stock.Stocked, Stock.Serves, SameStock, Written, IsTimestamp, ServedBoth;
    var ok;
    ok, food', medicine' := UpdateStock(server, r, food, medicine);
    if ok {
      ghost var entries := server.db.entries;
      server.RecordTcpUpdate(json, log, timestamp, puts);
      StockedAgrees(entries, server.db.entries, food', medicine');
    }
  }

  method HandleUdpUpdate(
      server: Server, r: Stock.Request, json: Text, log: Text, timestamp: Text, puts: nat,
      ghost food: seq<int32>, ghost medicine: seq<int32>, ghost n: nat)
      returns (ghost food': seq<int32>, ghost medicine': seq<int32>)
    requires server.ReadyFor(n + 1) && IsTimestamp(timestamp) && r.Read()
    requires Stock.Stocked(server.db.entries, food, medicine) && Stock.Serves(r, food, medicine)
    modifies server.suppliesIdGen, server.db
    ensures server.ReadyFor(n) && server.CurrentIds() == old(server.CurrentIds())
    ensures Stock.Stocked(server.db.entries, food', medicine') && ServedBoth(r, food, medicine, food', medicine')
  {
    hide Holds, Seed, Stock.Stocked, Stock.Serves, SameStock, Written, IsTimestamp, ServedBoth;
    var ok;
    ok, food', medicine' := UpdateStock(server, r, food, medicine);
    ghost var entries := server.db.entries;
    server.RecordUdpUpdate(json, log, timestamp, puts);
    StockedAgrees(entries, server.db.entries, food', medicine');
  }

  /** A new process on the same database. */
  method HandleRestart(server: Server, puts: nat, ghost food: seq<int32>, ghost medicine: seq<int32>, ghost n: nat)
      returns (next: Server)
    requires server.ReadyFor(n + 1) && Stock.Stocked(server.db.entries, food, medicine)
    modifies server.db
    ensures next.ReadyFor(n) && next.db == server.db && fresh(next.Objects()) && next.recorded == server.recorded
    ensures next.CurrentIds() == Next(old(server.CurrentIds()), Restart(puts))
    ensures Stock.Stocked(next.db.entries, food, medicine)
  {
    StockedStarts(server.db.entries, food, medicine);
    hide Holds, Seed, Stock.Stocked, Stock.StartsWith;
    next := Launch(server.db, server.recorded, puts, food, medicine, n);
  }

  lemma StockedStarts(entries: map<Text, Text>, food: seq<int32>, medicine: seq<int32>)
    requires Stock.Stocked(entries, food, medicine)
    ensures Stock.StartsWith(entries, food, medicine)
  {
  }

  /** The ids in the database leave room for this many more. */
  predicate Room(entries: map<Text, Text>, n: nat) {
    && 0 <= Seed(entries, LAST_SUPPLIES) && Seed(entries, LAST_SUPPLIES) + n < INT_MAX
    && 0 <= Seed(entries, LAST_ALERT) && Seed(entries, LAST_ALERT) + n < INT_MAX && n < INT_MAX
  }

  /** A server that has just started. */
  lemma StartedReady(server: Server, entries: map<Text, Text>, puts: nat,
                     food: seq<int32>, medicine: seq<int32>, n: nat)
    requires Holds(entries, server.recorded) && Room(entries, n) && Stock.StartsWith(entries, food, medicine)
    requires server.db.entries == Started(entries, puts) && server.Generators() && server.emergNotifIdGen.counter == 0
    requires server.alertsIdGen.counter == Seed(entries, LAST_ALERT) + 1
    requires server.suppliesIdGen.counter == Seed(entries, LAST_SUPPLIES) + 1
    ensures server.ReadyFor(n) && Stock.Stocked(server.db.entries, food, medicine)
    ensures server.CurrentIds() == Ids(Seed(entries, LAST_ALERT), Seed(entries, LAST_ALERT) + 1)
  {
    hide Seed, Holds, Stock.Stocked, Stock.StartsWith, Started;
    StartKept(entries, server.recorded, puts, food, medicine);
  }

  lemma RoomLeft(entries: map<Text, Text>, n: nat)
    requires Room(entries, n)
    ensures 0 <= Seed(entries, LAST_ALERT) < INT_MAX && Seed(entries, LAST_SUPPLIES) < INT_MAX
  {
  }

  method Launch(db: RocksDbWrapper, ghost recorded: seq<Alert>, puts: nat,
                ghost food: seq<int32>, ghost medicine: seq<int32>, ghost n: nat)
      returns (server: Server)
    requires Holds(db.entries, recorded) && Room(db.entries, n) && Stock.StartsWith(db.entries, food, medicine)
    modifies db
    ensures server.ReadyFor(n) && server.db == db && fresh(server.Objects()) && server.recorded == recorded
    ensures server.CurrentIds() == Ids(old(Seed(db.entries, LAST_ALERT)), old(Seed(db.entries, LAST_ALERT)) + 1)
    ensures Stock.Stocked(db.entries, food, medicine)
  {
    hide Seed, Holds, Stock.Stocked, Stock.StartsWith, Started, Room, Server.Ready, Server.ReadyFor;
    hide Server.CurrentIds, Server.Generators, StartRecorded;
    RoomLeft(db.entries, n);
    server := new Server(db, recorded);
    server.Start(puts);
    StartedReady(server, old(db.entries), puts, food, medicine, n);
  }

  lemma RecordedNext(recorded: seq<Alert>, s: Ids, rest: seq<Event>)
    requires rest != []
    ensures recorded + Recorded(s, rest) == recorded + Put(s, rest[0]) + Recorded(Next(s, rest[0]), rest[1..])
  {
  }

  lemma RequestsNext(rest: seq<Event>, requests: seq<Stock.Request>, k: nat)
    requires rest != [] && k <= |requests| && Requests(rest) == requests[k..]
    ensures k + |RequestOf(rest[0])| <= |requests|
    ensures Requests(rest[1..]) == requests[k + |RequestOf(rest[0])|..]
    ensures forall r <- RequestOf(rest[0]) :: k < |requests| && r == requests[k]
  {
    var first := RequestOf(rest[0]);
    assert requests[k..] == first + Requests(rest[1..]);
    assert requests[k + |first|..] == requests[k..][|first|..];
    assert forall r <- first :: r == requests[k..][0];
  }

  /** The stock after the first k requests. */
  ghost predicate StockAt(
      requests: seq<Stock.Request>, k: nat, food: seq<int32>, medicine: seq<int32>,
      foodNow: seq<int32>, medicineNow: seq<int32>)
  {
    && k <= |requests|
    && Stock.AtLevels(foodNow, food, requests[..k], FOOD, Stock.FOOD_NAMES)
    && Stock.AtLevels(medicineNow, medicine, requests[..k], MEDICINE, Stock.MEDICINE_NAMES)
  }

  /** The requests can all be served: no sum overflows, and the memory behind each value has a NUL. */
  ghost predicate Servable(requests: seq<Stock.Request>, food: seq<int32>, medicine: seq<int32>) {
    && (forall r <- requests :: r.Terminated())
    && Stock.NeverOverflows(food, requests, FOOD, Stock.FOOD_NAMES)
    && Stock.NeverOverflows(medicine, requests, MEDICINE, Stock.MEDICINE_NAMES)
  }

  lemma StockAtStart(requests: seq<Stock.Request>, food: seq<int32>, medicine: seq<int32>)
    requires Servable(requests, food, medicine)
    ensures StockAt(requests, 0, food, medicine, food, medicine)
  {
    hide Stock.Change, Stock.Delta;
  }

  lemma ServesAt(requests: seq<Stock.Request>, k: nat, food: seq<int32>, medicine: seq<int32>,
                 foodNow: seq<int32>, medicineNow: seq<int32>)
    requires StockAt(requests, k, food, medicine, foodNow, medicineNow) && Servable(requests, food, medicine)
    requires k < |requests|
    ensures Stock.Serves(requests[k], foodNow, medicineNow)
  {
    Stock.StockSizes();
    hide Stock.NeverOverflows, Stock.Fits;
    Stock.FitsAt(foodNow, food, requests, k, FOOD, Stock.FOOD_NAMES);
    Stock.FitsAt(medicineNow, medicine, requests, k, MEDICINE, Stock.MEDICINE_NAMES);
  }

  lemma StockAtNext(requests: seq<Stock.Request>, k: nat, food: seq<int32>, medicine: seq<int32>,
                    foodNow: seq<int32>, medicineNow: seq<int32>, food': seq<int32>, medicine': seq<int32>)
    requires StockAt(requests, k, food, medicine, foodNow, medicineNow) && Servable(requests, food, medicine)
    requires k < |requests| && ServedBoth(requests[k], foodNow, medicineNow, food', medicine')
    ensures StockAt(requests, k + 1, food, medicine, food', medicine')
  {
    Stock.StockSizes();
    hide Stock.NeverOverflows, Stock.Fits, Stock.AtLevels, Stock.Served;
    Stock.FitsAt(foodNow, food, requests, k, FOOD, Stock.FOOD_NAMES);
    Stock.FitsAt(medicineNow, medicine, requests, k, MEDICINE, Stock.MEDICINE_NAMES);
    Stock.AtLevelsNext(foodNow, food', food, requests, k, FOOD, Stock.FOOD_NAMES);
    Stock.AtLevelsNext(medicineNow, medicine', medicine, requests, k, MEDICINE, Stock.MEDICINE_NAMES);
  }

  /** What does not change over a run: the alerts on record at its end, its requests, the stock before it. */
  datatype Run = Run(all: seq<Alert>, requests: seq<Stock.Request>, food: seq<int32>, medicine: seq<int32>)

  /** How far a run has come: the requests served, and the stock now. */
  datatype Point = Point(k: nat, food: seq<int32>, medicine: seq<int32>)

  /** The run is at this point, with these alerts on record, these ids, and these events still to come. */
  ghost predicate Underway(run: Run, at: Point, recorded: seq<Alert>, ids: Ids, rest: seq<Event>) {
    && (forall e <- rest :: Regular(e)) && recorded + Recorded(ids, rest) == run.all
    && at.k <= |run.requests| && Requests(rest) == run.requests[at.k..]
    && Servable(run.requests, run.food, run.medicine)
    && StockAt(run.requests, at.k, run.food, run.medicine, at.food, at.medicine)
  }

  /** What the next event may rely on. */
  lemma Coming(run: Run, at: Point, recorded: seq<Alert>, ids: Ids, rest: seq<Event>)
    requires Underway(run, at, recorded, ids, rest) && rest != []
    ensures Regular(rest[0]) && forall r <- RequestOf(rest[0]) :: Stock.Serves(r, at.food, at.medicine)
  {
    RequestsNext(rest, run.requests, at.k);
    hide Requests, Recorded, Servable, StockAt, Stock.Serves, RequestOf, Regular;
    forall r | r in RequestOf(rest[0]) ensures Stock.Serves(r, at.food, at.medicine) {
      ServesAt(run.requests, at.k, run.food, run.medicine, at.food, at.medicine);
    }
  }

  /** What the next event makes of the stock. */
  lemma CameStock(run: Run, at: Point, rest: seq<Event>, next: Point)
    requires rest != [] && next.k == at.k + |RequestOf(rest[0])|
    requires at.k <= |run.requests| && Requests(rest) == run.requests[at.k..]
    requires Servable(run.requests, run.food, run.medicine)
    requires StockAt(run.requests, at.k, run.food, run.medicine, at.food, at.medicine)
    requires RequestOf(rest[0]) == [] ==> next.food == at.food && next.medicine == at.medicine
    requires forall r <- RequestOf(rest[0]) :: ServedBoth(r, at.food, at.medicine, next.food, next.medicine)
    ensures next.k <= |run.requests| && Requests(rest[1..]) == run.requests[next.k..]
    ensures StockAt(run.requests, next.k, run.food, run.medicine, next.food, next.medicine)
  {
    RequestsNext(rest, run.requests, at.k);
    var asked := RequestOf(rest[0]);
    assert asked != [] ==> asked[0] in asked && |asked| == 1;
    hide *;
    if asked != [] {
      StockAtNext(run.requests, at.k, run.food, run.medicine, at.food, at.medicine, next.food, next.medicine);
    }
  }

  /** What the next event makes of the run. */
  lemma Came(run: Run, at: Point, recorded: seq<Alert>, ids: Ids, rest: seq<Event>, next: Point)
    requires Underway(run, at, recorded, ids, rest) && rest != [] && next.k == at.k + |RequestOf(rest[0])|
    requires RequestOf(rest[0]) == [] ==> next.food == at.food && next.medicine == at.medicine
    requires forall r <- RequestOf(rest[0]) :: ServedBoth(r, at.food, at.medicine, next.food, next.medicine)
    ensures Underway(run, next, recorded + Put(ids, rest[0]), Next(ids, rest[0]), rest[1..])
  {
    hide Requests, Recorded, Next, Put, Servable, StockAt, ServedBoth, Regular, RequestOf;
    RecordedNext(recorded, ids, rest);
    CameStock(run, at, rest, next);
  }

  /** A turn of the loop of start. */
  method HandleNext(server: Server, e: Event, ghost rest: seq<Event>, ghost run: Run, ghost at: Point)
      returns (next: Server, ghost at': Point)
    requires rest != [] && e == rest[0] && Underway(run, at, server.recorded, server.CurrentIds(), rest)
    requires server.ReadyFor(|rest|) && Stock.Stocked(server.db.entries, at.food, at.medicine)
    modifies server.Objects(), server.db
    ensures next.db == server.db && fresh(next.Objects() - old(server.Objects()))
    ensures next.ReadyFor(|rest| - 1) && Stock.Stocked(next.db.entries, at'.food, at'.medicine)
    ensures Underway(run, at', next.recorded, next.CurrentIds(), rest[1..])
  {
    ghost var recorded, ids := server.recorded, server.CurrentIds();
    Coming(run, at, recorded, ids, rest);
    hide *;
    ghost var food, medicine;
    next, food, medicine := Handle(server, e, at.food, at.medicine, |rest| - 1);
    at' := Point(at.k + |RequestOf(e)|, food, medicine);
    Came(run, at, recorded, ids, rest, at');
  }

  /** The loop of start: events, one after the other. */
  method HandleAll(start: Server, events: seq<Event>, ghost run: Run)
      returns (server: Server, ghost at: Point)
    requires Underway(run, Point(0, run.food, run.medicine), start.recorded, start.CurrentIds(), events)
    requires start.ReadyFor(|events|) && Stock.Stocked(start.db.entries, run.food, run.medicine)
    modifies start.Objects(), start.db
    ensures server.ReadyFor(0) && server.db == start.db && Stock.Stocked(server.db.entries, at.food, at.medicine)
    ensures Underway(run, at, server.recorded, server.CurrentIds(), [])
  {
    hide Underway, Stock.Stocked, Server.ReadyFor, Server.CurrentIds;
    ghost var objects := start.Objects();
    server, at := start, Point(0, run.food, run.medicine);
    assert events[0..] == events;
    var n := 0;
    while n < |events|
      invariant 0 <= n <= |events| && server.ReadyFor(|events| - n)
      invariant server.db == start.db && fresh(server.Objects() - objects)
      invariant Stock.Stocked(server.db.entries, at.food, at.medicine)
      invariant Underway(run, at, server.recorded, server.CurrentIds(), events[n..])
    {
      assert events[n..][1..] == events[n + 1..];
      server, at := HandleNext(server, events[n], events[n..], run, at);
      n := n + 1;
    }
    assert events[n..] == [];
  }

  /** A run at its start. */
  lemma Starts(recorded: seq<Alert>, last: int, events: seq<Event>, food: seq<int32>, medicine: seq<int32>)
      returns (run: Run)
    requires (forall e <- events :: Regular(e)) && Servable(Requests(events), food, medicine)
    ensures run == Run(AlertsAfter(recorded, last, events), Requests(events), food, medicine)
    ensures Underway(run, Point(0, food, medicine), recorded, Ids(last, last + 1), events)
  {
    run := Run(AlertsAfter(recorded, last, events), Requests(events), food, medicine);
    StockAtStart(run.requests, food, medicine);
    assert run.requests[0..] == run.requests;
  }

  /** A run at its end: all alerts are on record, and all requests are served. */
  lemma Ends(run: Run, at: Point, recorded: seq<Alert>, ids: Ids)
    requires Underway(run, at, recorded, ids, [])
    ensures recorded == run.all
    ensures Stock.AtLevels(at.food, run.food, run.requests, FOOD, Stock.FOOD_NAMES)
    ensures Stock.AtLevels(at.medicine, run.medicine, run.requests, MEDICINE, Stock.MEDICINE_NAMES)
  {
    hide Stock.AtLevels, Servable;
    assert run.requests[at.k..] == [] && run.requests[..at.k] == run.requests;
    assert recorded + Recorded(ids, []) == recorded;
  }

  /** The ids on record beyond the last id in the database. */
  function Debt(recorded: seq<Alert>, last: int): nat {
    if LastId(recorded) < last then 0 else LastId(recorded) - last
  }

  method ReadBack(db: RocksDbWrapper, foodBehind: Text, medicineBehind: Text,
                  ghost food: seq<int32>, ghost medicine: seq<int32>)
      returns (foodSupply: Stock.FoodSupply, medicineSupply: Stock.MedicineSupply)
    requires Stock.Stocked(db.entries, food, medicine) && NUL in foodBehind && NUL in medicineBehind
    ensures foodSupply.Values() == food && medicineSupply.Values() == medicine
  {
    hide Reads;
    var readFood := Stock.GetFoodSupply(db, true, foodBehind, food);
    var readMedicine := Stock.GetMedicineSupply(db, true, medicineBehind, medicine);
    foodSupply, medicineSupply := readFood, readMedicine;
  }

  /** The alerts on record after a run of a process that starts with this last id. */
  ghost function AlertsAfter(recorded: seq<Alert>, last: int, events: seq<Event>): seq<Alert> {
    recorded + Recorded(Ids(last, last + 1), events)
  }

  /** Exactly when the ids on record after a run are distinct, and when they increase. */
  ghost predicate IdsAfter(recorded: seq<Alert>, after: seq<Alert>, last: int, events: seq<Event>) {
    && (Increasing(after) <==> Increasing(recorded) && Paid(Owed(0, Debt(recorded, last)), events))
    && (DistinctIds(after) <==> DistinctIds(recorded) && Untaken(Ahead(0, Taken(recorded, last)), events))
  }

  lemma IdsAfterRun(recorded: seq<Alert>, last: int, events: seq<Event>)
    requires 0 <= last
    ensures IdsAfter(recorded, AlertsAfter(recorded, last, events), last, events)
  {
    hide Increasing, DistinctIds, Recorded, Paid, Untaken, Taken, Debt;
    RunIncreases(recorded, last, events);
    RunDistinct(recorded, last, events);
  }

  /**
    Any run of events and restarts, with any failures, on any database that holds some alerts
    and some stock: the database holds these alerts and those put on record in the run, in
    order; the ids are distinct and increasing, or just distinct, exactly if they were before and
    the run is paid, or takes no id twice; and the stock read back is, item by item, the clamped
    level of the changes that were written.
  */
  method Serve(
      db: RocksDbWrapper, ghost recorded: seq<Alert>, ghost food: seq<int32>, ghost medicine: seq<int32>,
      puts: nat, events: seq<Event>, foodBehind: Text, medicineBehind: Text)
      returns (server: Server, finalFood: Stock.FoodSupply, finalMedicine: Stock.MedicineSupply)
    requires Holds(db.entries, recorded) && Room(db.entries, |events|) && Stock.StartsWith(db.entries, food, medicine)
    requires (forall e <- events :: Regular(e)) && Servable(Requests(events), food, medicine)
    requires NUL in foodBehind && NUL in medicineBehind
    modifies db
    ensures server.db == db && Holds(db.entries, server.recorded)
    ensures server.recorded == AlertsAfter(recorded, old(Seed(db.entries, LAST_ALERT)), events)
    ensures IdsAfter(recorded, server.recorded, old(Seed(db.entries, LAST_ALERT)), events)
    ensures Stock.AtLevels(finalFood.Values(), food, Requests(events), FOOD, Stock.FOOD_NAMES)
    ensures Stock.AtLevels(finalMedicine.Values(), medicine, Requests(events), MEDICINE, Stock.MEDICINE_NAMES)
  {
    hide *;
    ghost var last := Seed(db.entries, LAST_ALERT);
    RoomLeft(db.entries, |events|);
    IdsAfterRun(recorded, last, events);
    ghost var run := Starts(recorded, last, events, food, medicine);
    ghost var at;
    server, at := RunAll(db, recorded, run, puts, events);
    finalFood, finalMedicine := ReadBack(db, foodBehind, medicineBehind, at.food, at.medicine);
  }

  lemma RunIncreases(recorded: seq<Alert>, last: int, events: seq<Event>)
    requires 0 <= last
    ensures Increasing(recorded + Recorded(Ids(last, last + 1), events))
      <==> Increasing(recorded) && Paid(Owed(0, Debt(recorded, last)), events)
  {
    hide Increasing, Recorded, Paid;
    if Increasing(recorded + Recorded(Ids(last, last + 1), events)) {
      IncreasingPart(recorded, Recorded(Ids(last, last + 1), events));
    }
    if Increasing(recorded) {
      IncreasingExactly(recorded, Ids(last, last + 1), Owed(0, Debt(recorded, last)), events);
    }
  }

  lemma RunDistinct(recorded: seq<Alert>, last: int, events: seq<Event>)
    ensures DistinctIds(recorded + Recorded(Ids(last, last + 1), events))
      <==> DistinctIds(recorded) && Untaken(Ahead(0, Taken(recorded, last)), events)
  {
    hide DistinctIds, Recorded, Untaken, Taken;
    if DistinctIds(recorded + Recorded(Ids(last, last + 1), events)) {
      DistinctPart(recorded, Recorded(Ids(last, last + 1), events));
    }
    if DistinctIds(recorded) {
      DistinctExactly(recorded, Ids(last, last + 1), Ahead(0, Taken(recorded, last)), events);
    }
  }

  /** The start of the server, and its loop. */
  method RunAll(db: RocksDbWrapper, ghost recorded: seq<Alert>, ghost run: Run, puts: nat, events: seq<Event>)
      returns (server: Server, ghost at: Point)
    requires Holds(db.entries, recorded) && Room(db.entries, |events|)
    requires Stock.StartsWith(db.entries, run.food, run.medicine)
    requires var last := Seed(db.entries, LAST_ALERT);
      Underway(run, Point(0, run.food, run.medicine), recorded, Ids(last, last + 1), events)
    modifies db
    ensures server.db == db && Holds(db.entries, server.recorded) && server.recorded == run.all
    ensures Stock.Stocked(db.entries, at.food, at.medicine)
    ensures Stock.AtLevels(at.food, run.food, run.requests, FOOD, Stock.FOOD_NAMES)
    ensures Stock.AtLevels(at.medicine, run.medicine, run.requests, MEDICINE, Stock.MEDICINE_NAMES)
  {
    hide *;
    server := Launch(db, recorded, puts, run.food, run.medicine, |events|);
    server, at := HandleAll(server, events, run);
    ReadyHolds(server);
    Ends(run, at, server.recorded, server.CurrentIds());
  }

  lemma ReadyHolds(server: Server)
    requires server.ReadyFor(0)
    ensures Holds(server.db.entries, server.recorded)
  {
  }
}
