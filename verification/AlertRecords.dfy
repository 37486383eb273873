/**
  The record keys of the server: ids and their generators, the alerts a database holds, and
  the REST lookup of alerts by a substring of their keys.
*/
module AlertRecords {
  import opened Bytes
  import opened Numbers
  import opened KeyValueStore
  import Numerals

  const UNDERSCORE: byte := 95
  const SMALL_L: byte := 108

  const ALERTS: Text := Ascii("alert_")
  const SUPPLIES: Text := Ascii("supplies_")
  const EMERGENCIES: Text := Ascii("emergencyNotification_")
  const LAST_ALERT: Text := Ascii("last_alert")
  const LAST_SUPPLIES: Text := Ascii("last_supplies")
  const LAST_EVENT: Text := Ascii("lastEvent")
  const LATEST_SUPPLIES: Text := Ascii("latestSupplies")

  // ---- Keys ----

  /** The characters of "[%Y-%m-%d %H:%M:%S] ". */
  predicate IsTimestamp(t: Text) {
    forall i | 0 <= i < |t| ::
      IsDigit(t[i]) || t[i] == MINUS || t[i] == SPACE || t[i] == COLON || t[i] == OPEN_BRACKET || t[i] == CLOSE_BRACKET
  }

  function RecordKey(prefix: Text, id: Text, timestamp: Text): Text {
    prefix + (id + ([UNDERSCORE] + timestamp))
  }

  function SearchPart(id: Text): Text {
    [UNDERSCORE] + (id + [UNDERSCORE])
  }

  predicate Digits(id: Text) {
    forall i | 0 <= i < |id| :: IsDigit(id[i])
  }

  /** A key in which "alert_" stands has these letters at the same distance. */
  lemma AlertsWithin(key: Text, i: nat)
    requires StandsAt(key, i, ALERTS)
    ensures i + 6 <= |key| && key[i] == LOWER_A && key[i + 1] == SMALL_L && key[i + 5] == UNDERSCORE
  {
    StandsAtByte(key, i, ALERTS, 0);
    StandsAtByte(key, i, ALERTS, 1);
    StandsAtByte(key, i, ALERTS, 5);
  }

  lemma FixedKeysAreNoAlerts()
    ensures !Contains(LAST_ALERT, ALERTS) && !Contains(LAST_SUPPLIES, ALERTS)
    ensures !Contains(LAST_EVENT, ALERTS) && !Contains(LATEST_SUPPLIES, ALERTS)
  {
    assert forall i | 0 <= i < |LAST_ALERT| :: LAST_ALERT[i] == UNDERSCORE ==> i == 4;
    assert forall i | 0 <= i < |LAST_SUPPLIES| :: LAST_SUPPLIES[i] == UNDERSCORE ==> i == 4;
    assert UNDERSCORE !in LAST_EVENT && UNDERSCORE !in LATEST_SUPPLIES;
    forall i: nat ensures !StandsAt(LAST_ALERT, i, ALERTS) && !StandsAt(LAST_SUPPLIES, i, ALERTS) {
      if StandsAt(LAST_ALERT, i, ALERTS) {
        AlertsWithin(LAST_ALERT, i);
      }
      if StandsAt(LAST_SUPPLIES, i, ALERTS) {
        AlertsWithin(LAST_SUPPLIES, i);
      }
    }
    forall i: nat ensures !StandsAt(LAST_EVENT, i, ALERTS) && !StandsAt(LATEST_SUPPLIES, i, ALERTS) {
      if StandsAt(LAST_EVENT, i, ALERTS) {
        AlertsWithin(LAST_EVENT, i);
      }
      if StandsAt(LATEST_SUPPLIES, i, ALERTS) {
        AlertsWithin(LATEST_SUPPLIES, i);
      }
    }
  }

  /** No key of another kind of record contains "alert_": none has an 'a' with an 'l' behind it. */
  lemma OtherRecordsAreNoAlerts(prefix: Text, id: Text, timestamp: Text)
    requires Digits(id) && IsTimestamp(timestamp) && (LOWER_A !in prefix || SMALL_L !in prefix)
    ensures !Contains(RecordKey(prefix, id, timestamp), ALERTS)
  {
    var key := RecordKey(prefix, id, timestamp);
    LettersInPrefix(prefix, id, timestamp);
    hide RecordKey;
    forall i: nat ensures !StandsAt(key, i, ALERTS) {
      if StandsAt(key, i, ALERTS) {
        AlertsWithin(key, i);
      }
    }
  }

  lemma LettersInPrefix(prefix: Text, id: Text, timestamp: Text)
    requires Digits(id) && IsTimestamp(timestamp)
    ensures var key := RecordKey(prefix, id, timestamp);
      forall k | 0 <= k < |key| && (key[k] == LOWER_A || key[k] == SMALL_L) :: k < |prefix| && key[k] == prefix[k]
  {
    var key := RecordKey(prefix, id, timestamp);
    forall k | 0 <= k < |key| && (key[k] == LOWER_A || key[k] == SMALL_L) ensures k < |prefix| && key[k] == prefix[k] {
      KeyByte(prefix, id, timestamp, k);
    }
  }

  lemma KeyByte(prefix: Text, id: Text, timestamp: Text, k: nat)
    requires k < |RecordKey(prefix, id, timestamp)|
    ensures RecordKey(prefix, id, timestamp)[k] ==
      if k < |prefix| then prefix[k]
      else if k < |prefix| + |id| then id[k - |prefix|]
      else if k == |prefix| + |id| then UNDERSCORE
      else timestamp[k - |prefix| - |id| - 1]
  {
  }

  lemma PrefixLetters()
    ensures LOWER_A !in SUPPLIES && SMALL_L !in EMERGENCIES
  {
  }

  /** The search for an alert by id hits exactly the alerts with this id text. */
  lemma SearchHits(id: Text, timestamp: Text, wanted: Text)
    requires Digits(id) && IsTimestamp(timestamp)
    ensures ContainsAll(RecordKey(ALERTS, id, timestamp), [ALERTS, SearchPart(wanted)]) <==> wanted == id
    ensures Contains(RecordKey(ALERTS, id, timestamp), ALERTS)
  {
    var key := RecordKey(ALERTS, id, timestamp);
    assert StandsAt(key, 0, ALERTS);
    assert SearchPart(wanted) in [ALERTS, SearchPart(wanted)];
    if wanted == id {
      assert key[5..5 + |SearchPart(id)|] == SearchPart(id);
      assert StandsAt(key, 5, SearchPart(id));
    } else {
      forall i: nat ensures !StandsAt(key, i, SearchPart(wanted)) {
        if StandsAt(key, i, SearchPart(wanted)) {
          WantedIsId(id, timestamp, wanted, i);
        }
      }
      assert !Contains(key, SearchPart(wanted));
    }
  }

  /** An alert key has two underscores, around its id. */
  lemma WantedIsId(id: Text, timestamp: Text, wanted: Text, i: nat)
    requires Digits(id) && IsTimestamp(timestamp)
    requires StandsAt(RecordKey(ALERTS, id, timestamp), i, SearchPart(wanted))
    ensures wanted == id
  {
    var key, part := RecordKey(ALERTS, id, timestamp), SearchPart(wanted);
    StandsAtByte(key, i, part, 0);
    StandsAtByte(key, i, part, |wanted| + 1);
    KeyByte(ALERTS, id, timestamp, i);
    KeyByte(ALERTS, id, timestamp, i + |wanted| + 1);
    assert i == 5 && |wanted| == |id|;
    forall k | 0 <= k < |id| ensures wanted[k] == id[k] {
      StandsAtByte(key, i, part, k + 1);
      KeyByte(ALERTS, id, timestamp, 6 + k);
    }
  }

  /** An alert is determined by its key, but for its text. */
  lemma KeyDeterminesId(id: Text, timestamp: Text, other: Text, otherTimestamp: Text)
    requires Digits(id) && IsTimestamp(timestamp) && Digits(other) && IsTimestamp(otherTimestamp)
    requires RecordKey(ALERTS, id, timestamp) == RecordKey(ALERTS, other, otherTimestamp)
    ensures id == other
  {
    SearchHits(id, timestamp, id);
    SearchHits(other, otherTimestamp, id);
  }

  // ---- Ids ----

  predicate IsSpace(b: byte) {
    b == SPACE || TAB <= b <= RETURN
  }

  function SpacesEnd(s: Text, i: nat): (e: nat)
    requires i <= |s|
    ensures i <= e <= |s|
    decreases |s| - i
  {
    if i < |s| && IsSpace(s[i]) then SpacesEnd(s, i + 1) else i
  }

  /** std::stoi; None stands for its exceptions. */
  function Stoi(s: Text): Option<int32> {
    var i := SpacesEnd(s, 0);
    var k := SignEnd(s, i);
    var e := DigitsEnd(s, k);
    if k == e then None
    else
      var m := DigitsValue(s[k..e]);
      var n := if k > i && s[i] == MINUS then 0 - m else m;
      if INT_MIN <= n <= INT_MAX then Some(n) else None
  }

  /** Blanks in front, a sign or none, and digits as long as possible, whose value fits 32 bits. */
  ghost predicate IntegerAt(s: Text, n: int) {
    exists i: nat, k: nat, e: nat ::
      && i <= |s| && (forall j | 0 <= j < i :: s[j] as char in " \t\n\U{0B}\U{0C}\r")
      && (i < |s| ==> s[i] as char !in " \t\n\U{0B}\U{0C}\r")
      && Numerals.Sign(s, i, k) && Numerals.Digits(s, k, e) && k < e
      && -2147483648 <= n <= 2147483647
      && n == if CharAt(s, i, '-') then -Numerals.PlaceValue(s[k..e]) else Numerals.PlaceValue(s[k..e])
  }

  lemma {:induction false} SpacesEndExact(s: Text, i: nat, e: nat)
    requires i <= |s|
    ensures e == SpacesEnd(s, i) <==>
      && i <= e <= |s| && (forall j | i <= j < e :: s[j] as char in " \t\n\U{0B}\U{0C}\r")
      && (e < |s| ==> s[e] as char !in " \t\n\U{0B}\U{0C}\r")
    decreases |s| - i
  {
    if i < |s| {
      SpacesExact(s[i]);
      if IsSpace(s[i]) {
        SpacesEndExact(s, i + 1, e);
      }
    }
  }

  lemma SpacesExact(b: byte)
    ensures IsSpace(b) <==> b as char in " \t\n\U{0B}\U{0C}\r"
  {
  }

  /** std::stoi reads exactly these texts; all others make it throw. */
  lemma StoiExact(s: Text, n: int)
    ensures (Stoi(s).Some? && Stoi(s).value == n) <==> IntegerAt(s, n)
  {
    hide Numerals.Digits, Numerals.Sign, Numerals.PlaceValue, DigitsValue, IsSpace;
    forall i: nat | i <= |s|
      ensures i == SpacesEnd(s, 0) <==>
        && (forall j | 0 <= j < i :: s[j] as char in " \t\n\U{0B}\U{0C}\r")
        && (i < |s| ==> s[i] as char !in " \t\n\U{0B}\U{0C}\r")
    {
      SpacesEndExact(s, 0, i);
    }
    var i := SpacesEnd(s, 0);
    forall k: nat ensures Numerals.Sign(s, i, k) <==> k == SignEnd(s, i) {
      Numerals.SignEndExact(s, i, k);
    }
    var k := SignEnd(s, i);
    forall e: nat ensures Numerals.Digits(s, k, e) <==> e == DigitsEnd(s, k) {
      Numerals.DigitsEndExact(s, k, e);
    }
    Numerals.DigitsTo(s, k, DigitsEnd(s, k));
    Numerals.DigitsValueIsPlaceValue(s[k..DigitsEnd(s, k)]);
  }

  lemma IdText(n: int)
    requires 0 <= n
    ensures Digits(Dec(n)) && DigitsValue(Dec(n)) == n
  {
    DigitsValueOfDecNat(n);
  }

  /** An id reads back as the number it was printed from. */
  lemma StoiOfId(n: int32)
    requires 0 <= n
    ensures Digits(Dec(n)) && Stoi(Dec(n)) == Some(n)
  {
    var s := Dec(n);
    assert s == DecNat(n) && IsDigit(s[0]);
    DigitsEndOfAll(s, 0);
    DigitsValueOfDecNat(n);
    assert s[0..|s|] == s;
  }

  class IdGen {
    var counter: int32

    constructor ()
      ensures counter == 0
    {
      counter := 0;
    }

    method SetId(value: int32)
      requires value < INT_MAX
      modifies this
      ensures counter == value + 1
    {
      counter := value + 1;
    }

    method GetNextId() returns (id: Text)
      requires counter < INT_MAX
      modifies this
      ensures id == Dec(old(counter)) && counter == old(counter) + 1
    {
      id := Dec(counter);
      counter := counter + 1;
    }
  }

  // ---- The alerts of a database ----

  datatype Alert = Alert(id: int, timestamp: Text, text: Text)

  function KeyOf(a: Alert): Text {
    RecordKey(ALERTS, Dec(a.id), a.timestamp)
  }

  function LastId(alerts: seq<Alert>): (id: int)
    ensures alerts == [] ==> id == 0
  {
    if alerts == [] then 0 else alerts[|alerts| - 1].id
  }

  predicate Proper(a: Alert) {
    0 < a.id && IsTimestamp(a.timestamp)
  }

  /** Ids are pairwise distinct, and later alerts have larger ones. */
  predicate Increasing(alerts: seq<Alert>) {
    forall i, j | 0 <= i < j < |alerts| :: alerts[i].id < alerts[j].id
  }

  predicate DistinctIds(alerts: seq<Alert>) {
    forall i, j | 0 <= i < j < |alerts| :: alerts[i].id != alerts[j].id
  }

  /** No alert behind number i has the same key. */
  predicate Latest(alerts: seq<Alert>, i: nat)
    requires i < |alerts|
  {
    forall j | i < j < |alerts| :: KeyOf(alerts[j]) != KeyOf(alerts[i])
  }

  /** The alert records of a database are these, written in this order. */
  ghost predicate Holds(entries: map<Text, Text>, alerts: seq<Alert>) {
    && (forall a <- alerts :: Proper(a) && KeyOf(a) in entries)
    && (forall i | 0 <= i < |alerts| :: Latest(alerts, i) ==> entries[KeyOf(alerts[i])] == alerts[i].text)
    && forall key <- entries :: Contains(key, ALERTS) ==> exists a <- alerts :: key == KeyOf(a)
  }

  lemma HoldsProper(entries: map<Text, Text>, alerts: seq<Alert>)
    requires Holds(entries, alerts)
    ensures forall a <- alerts :: Proper(a)
  {
  }

  lemma HoldsAfterOther(entries: map<Text, Text>, alerts: seq<Alert>, key: Text, value: Text)
    requires Holds(entries, alerts) && !Contains(key, ALERTS)
    ensures Holds(entries[key := value], alerts)
  {
    hide Contains, KeyOf;
    forall a | a in alerts ensures KeyOf(a) != key {
      AlertKeyIsAlert(a);
    }
  }

  lemma AlertKeyIsAlert(a: Alert)
    requires Proper(a)
    ensures Contains(KeyOf(a), ALERTS)
  {
    IdText(a.id);
    SearchHits(Dec(a.id), a.timestamp, []);
  }

  lemma SameIdText(a: Alert, b: Alert)
    requires Proper(a) && Proper(b)
    ensures Dec(a.id) == Dec(b.id) <==> a.id == b.id
    ensures KeyOf(a) == KeyOf(b) <==> a.id == b.id && a.timestamp == b.timestamp
  {
    IdText(a.id);
    IdText(b.id);
    hide Dec;
    if KeyOf(a) == KeyOf(b) {
      KeyDeterminesId(Dec(a.id), a.timestamp, Dec(b.id), b.timestamp);
      TimestampOfKey(Dec(a.id), a.timestamp);
      TimestampOfKey(Dec(b.id), b.timestamp);
    }
  }

  lemma TimestampOfKey(id: Text, timestamp: Text)
    ensures |RecordKey(ALERTS, id, timestamp)| == |ALERTS| + |id| + 1 + |timestamp|
    ensures RecordKey(ALERTS, id, timestamp)[|ALERTS| + |id| + 1..] == timestamp
  {
  }

  /** A put under the key of an alert, whether or not there is one already. */
  lemma HoldsAfterAlert(entries: map<Text, Text>, alerts: seq<Alert>, a: Alert)
    requires Holds(entries, alerts) && Proper(a)
    ensures Holds(entries[KeyOf(a) := a.text], alerts + [a])
  {
    hide KeyOf, Contains;
    var all := alerts + [a];
    assert all[|alerts|] == a;
    forall i | 0 <= i < |all| && Latest(all, i) ensures entries[KeyOf(a) := a.text][KeyOf(all[i])] == all[i].text {
      if i < |alerts| {
        assert forall j | i < j < |alerts| :: all[j] == alerts[j];
        assert Latest(alerts, i);
      }
    }
  }

  // ---- The id on record ----

  /** The id that getLastId returns. */
  function Seed(entries: map<Text, Text>, key: Text): int32 {
    if key !in entries then 0
    else match Stoi(entries[key]) case Some(n) => n case None => 0
  }

  /** What getLastId makes of the database: a missing or unreadable id is set to 0. */
  function Seeded(entries: map<Text, Text>, key: Text): map<Text, Text> {
    if key in entries && Stoi(entries[key]).Some? then entries else entries[key := Ascii("0")]
  }

  lemma SeedOfSeeded(entries: map<Text, Text>, key: Text)
    ensures Seed(Seeded(entries, key), key) == Seed(entries, key)
    ensures forall other | other != key :: Agree(entries, Seeded(entries, key), other)
  {
    ZeroText();
    StoiOfId(0);
  }

  lemma ZeroText()
    ensures Ascii("0") == Dec(0)
  {
  }

  lemma SeedAgrees(a: map<Text, Text>, b: map<Text, Text>, key: Text)
    requires Agree(a, b, key)
    ensures Seed(a, key) == Seed(b, key)
  {
  }

  /** The puts of checkAlerts. */
  function AlertPuts(a: Alert): seq<(Text, Text)> {
    [(KeyOf(a), a.text), (LAST_EVENT, a.text), (LAST_ALERT, Dec(a.id))]
  }

  lemma AlertWritten(entries: map<Text, Text>, a: Alert, n: nat)
    ensures var key := KeyOf(a);
      Written(entries, AlertPuts(a), n)
      == if n == 0 then entries
         else if n == 1 then entries[key := a.text]
         else if n == 2 then entries[key := a.text][LAST_EVENT := a.text]
         else entries[key := a.text][LAST_EVENT := a.text][LAST_ALERT := Dec(a.id)]
  {
    hide KeyOf, Dec;
    var puts := AlertPuts(a);
    var one := entries[puts[0].0 := puts[0].1];
    var two := one[puts[1].0 := puts[1].1];
    assert puts[1..] == [puts[1], puts[2]] && puts[1..][1..] == [puts[2]];
    if n > 0 {
      WrittenNext(entries, puts, n);
      WrittenNext(one, puts[1..], n - 1);
    }
    if n > 1 {
      WrittenNext(two, puts[1..][1..], n - 2);
    }
  }

  /** What any number of the puts of an alert keep, and what they set. */
  lemma HoldsAfterPuts(entries: map<Text, Text>, alerts: seq<Alert>, a: Alert, n: nat)
    requires Holds(entries, alerts) && Proper(a) && a.id <= INT_MAX
    ensures var after := Written(entries, AlertPuts(a), n);
      && Holds(after, if n == 0 then alerts else alerts + [a])
      && Seed(after, LAST_ALERT) == if n < 3 then Seed(entries, LAST_ALERT) else a.id
  {
    AlertWritten(entries, a, n);
    HoldsAfterAlert(entries, alerts, a);
    AlertKeyIsAlert(a);
    FixedKeysAreNoAlerts();
    StoiOfId(a.id);
    DifferentLastKeys();
    hide Holds, Contains, KeyOf, Dec, Stoi, Written;
    var one := entries[KeyOf(a) := a.text];
    HoldsAfterOther(one, alerts + [a], LAST_EVENT, a.text);
    HoldsAfterOther(one[LAST_EVENT := a.text], alerts + [a], LAST_ALERT, Dec(a.id));
  }

  lemma DifferentLastKeys()
    ensures LAST_ALERT != LAST_EVENT && LAST_ALERT != LAST_SUPPLIES && LAST_EVENT != LAST_SUPPLIES
    ensures LATEST_SUPPLIES != LAST_ALERT && LATEST_SUPPLIES != LAST_SUPPLIES
  {
    assert |LAST_ALERT| == 10 && |LAST_EVENT| == 9 && |LAST_SUPPLIES| == 13 && |LATEST_SUPPLIES| == 14;
  }

  /**
    Of a new alert, any number of puts may take effect. It is on record while the stored last
    id is still below its own if and only if that is the first put, or the first two.
  */
  lemma CutShortExactly(entries: map<Text, Text>, alerts: seq<Alert>, a: Alert, n: nat)
    requires Holds(entries, alerts) && Proper(a) && KeyOf(a) !in entries && Seed(entries, LAST_ALERT) < a.id <= INT_MAX
    ensures var after := Written(entries, AlertPuts(a), n);
      KeyOf(a) in after && Seed(after, LAST_ALERT) < a.id <==> n == 1 || n == 2
  {
    hide Seed, KeyOf, Dec, Holds;
    HoldsAfterPuts(entries, alerts, a, n);
    AlertWritten(entries, a, n);
  }

  // ---- Several alerts under one id ----

  /** The last alert with the key of alert i. */
  lemma LatestOf(alerts: seq<Alert>, i: nat) returns (k: nat)
    requires i < |alerts|
    ensures i <= k < |alerts| && Latest(alerts, k) && KeyOf(alerts[k]) == KeyOf(alerts[i])
    decreases |alerts| - i
  {
    hide KeyOf;
    if Latest(alerts, i) {
      return i;
    }
    var j :| i < j < |alerts| && KeyOf(alerts[j]) == KeyOf(alerts[i]);
    k := LatestOf(alerts, j);
  }

  /**
    Two alerts under one id are two records if they were heard at different times; otherwise
    the later one has replaced the earlier.
  */
  lemma TwoAlertsOneId(entries: map<Text, Text>, alerts: seq<Alert>, i: nat, j: nat)
    requires Holds(entries, alerts) && i < j < |alerts| && alerts[i].id == alerts[j].id
    ensures KeyOf(alerts[i]) in entries && KeyOf(alerts[j]) in entries
    ensures alerts[i].timestamp != alerts[j].timestamp <==> KeyOf(alerts[i]) != KeyOf(alerts[j])
    ensures alerts[i].timestamp == alerts[j].timestamp ==> !Latest(alerts, i)
  {
    assert alerts[i] in alerts && alerts[j] in alerts;
    SameIdText(alerts[i], alerts[j]);
  }

  /** What the REST handler answers. */
  datatype Response = BadRequest | NotFound | Found(records: seq<Record>)

  function RecordOf(a: Alert): Record {
    Record(KeyOf(a), a.text)
  }

  // ---- The REST lookup ----

  /** The record is that of an alert, as last written. */
  ghost predicate IsRecord(alerts: seq<Alert>, r: Record) {
    exists i | 0 <= i < |alerts| :: Latest(alerts, i) && r == RecordOf(alerts[i])
  }

  /** The record is that of an alert with this id text. */
  ghost predicate IsRecordOf(alerts: seq<Alert>, id: Text, r: Record) {
    exists i | 0 <= i < |alerts| :: Latest(alerts, i) && Dec(alerts[i].id) == id && r == RecordOf(alerts[i])
  }

  /** A record under an alert's key is that of the last alert with this key. */
  lemma RecordFound(entries: map<Text, Text>, alerts: seq<Alert>, key: Text) returns (i: nat)
    requires Holds(entries, alerts) && key in entries && Contains(key, ALERTS)
    ensures i < |alerts| && Latest(alerts, i) && Record(key, entries[key]) == RecordOf(alerts[i])
  {
    hide KeyOf, Contains;
    var a :| a in alerts && key == KeyOf(a);
    var k :| 0 <= k < |alerts| && alerts[k] == a;
    i := LatestOf(alerts, k);
  }

  /** A search without id finds exactly the alerts. */
  lemma AllAlertsFound(entries: map<Text, Text>, alerts: seq<Alert>, order: seq<Text>)
    requires Holds(entries, alerts) && Enumerates(order, entries)
    ensures forall r :: r in Matching(entries, order, [ALERTS]) <==> IsRecord(alerts, r)
  {
    hide KeyOf, Contains, Latest;
    var m := Matching(entries, order, [ALERTS]);
    MatchingExact(entries, order, [ALERTS]);
    hide Matching;
    forall r ensures r in m <==> IsRecord(alerts, r) {
      if r in m {
        assert ALERTS in [ALERTS] && Contains(r.key, ALERTS);
        var i := RecordFound(entries, alerts, r.key);
      }
      if i :| 0 <= i < |alerts| && Latest(alerts, i) && r == RecordOf(alerts[i]) {
        assert alerts[i] in alerts;
        AlertKeyIsAlert(alerts[i]);
      }
    }
  }

  lemma AlertsWithIdFound(entries: map<Text, Text>, alerts: seq<Alert>, order: seq<Text>, id: Text)
    requires Holds(entries, alerts) && Enumerates(order, entries)
    ensures forall r :: r in Matching(entries, order, [ALERTS, SearchPart(id)]) <==> IsRecordOf(alerts, id, r)
  {
    hide RecordKey, Contains, Latest, Dec, SearchPart;
    var parts := [ALERTS, SearchPart(id)];
    var m := Matching(entries, order, parts);
    MatchingExact(entries, order, parts);
    hide Matching;
    forall r ensures r in m <==> IsRecordOf(alerts, id, r) {
      if r in m {
        assert ALERTS in parts && Contains(r.key, ALERTS);
        var i := RecordFound(entries, alerts, r.key);
        assert alerts[i] in alerts;
        IdText(alerts[i].id);
        SearchHits(Dec(alerts[i].id), alerts[i].timestamp, id);
      }
      if i :| 0 <= i < |alerts| && Latest(alerts, i) && Dec(alerts[i].id) == id && r == RecordOf(alerts[i]) {
        assert alerts[i] in alerts;
        IdText(alerts[i].id);
        SearchHits(Dec(alerts[i].id), alerts[i].timestamp, id);
      }
    }
  }

  /** All alerts with this id were heard at the same time. */
  predicate OneTime(alerts: seq<Alert>, id: Text) {
    forall i, j | 0 <= i < j < |alerts| && Dec(alerts[i].id) == id && Dec(alerts[j].id) == id ::
      alerts[i].timestamp == alerts[j].timestamp
  }

  /**
    A search by any id text finds exactly the alerts with this id, and at most one record if
    and only if all of them were heard at the same time.
  */
  lemma AlertByIdFound(entries: map<Text, Text>, alerts: seq<Alert>, order: seq<Text>, id: Text)
    requires Holds(entries, alerts) && Enumerates(order, entries)
    ensures var m := Matching(entries, order, [ALERTS, SearchPart(id)]);
      (forall r :: r in m <==> IsRecordOf(alerts, id, r)) && (|m| <= 1 <==> OneTime(alerts, id))
    ensures DistinctIds(alerts) ==> OneTime(alerts, id)
  {
    hide SearchPart, Matching;
    var parts := [ALERTS, SearchPart(id)];
    var m := Matching(entries, order, parts);
    AlertsWithIdFound(entries, alerts, order, id);
    MatchingDistinct(entries, order, parts);
    forall i, j | 0 <= i < j < |alerts| && Dec(alerts[i].id) == Dec(alerts[j].id) ensures alerts[i].id == alerts[j].id {
      assert alerts[i] in alerts && alerts[j] in alerts;
      SameIdText(alerts[i], alerts[j]);
    }
    hide Dec;
    AtMostOne(alerts, m, id);
  }

  lemma AtMostOne(alerts: seq<Alert>, m: seq<Record>, id: Text)
    requires forall a <- alerts :: Proper(a)
    requires forall r :: r in m <==> IsRecordOf(alerts, id, r)
    requires DistinctKeys(m)
    ensures |m| <= 1 <==> OneTime(alerts, id)
  {
    hide RecordKey, Dec, Latest;
    if |m| > 1 {
      assert m[0] in m && m[1] in m && m[0].key != m[1].key;
      var i :| 0 <= i < |alerts| && Dec(alerts[i].id) == id && m[0] == RecordOf(alerts[i]);
      var j :| 0 <= j < |alerts| && Dec(alerts[j].id) == id && m[1] == RecordOf(alerts[j]);
      assert m[0].key == KeyOf(alerts[i]) == RecordKey(ALERTS, id, alerts[i].timestamp) by {
        assert RecordOf(alerts[i]).key == KeyOf(alerts[i]);
      }
      assert m[1].key == KeyOf(alerts[j]) == RecordKey(ALERTS, id, alerts[j].timestamp) by {
        assert RecordOf(alerts[j]).key == KeyOf(alerts[j]);
      }
    }
    forall i, j | 0 <= i < j < |alerts| && Dec(alerts[i].id) == id && Dec(alerts[j].id) == id
      ensures |m| > 1 || alerts[i].timestamp == alerts[j].timestamp
    {
      TwoFound(alerts, m, id, i, j);
    }
  }

  lemma TwoFound(alerts: seq<Alert>, m: seq<Record>, id: Text, i: nat, j: nat)
    requires forall a <- alerts :: Proper(a)
    requires forall r :: r in m <==> IsRecordOf(alerts, id, r)
    requires i < j < |alerts| && Dec(alerts[i].id) == id && Dec(alerts[j].id) == id
    ensures |m| > 1 || alerts[i].timestamp == alerts[j].timestamp
  {
    hide RecordKey, Dec, Latest;
    var k := LatestOf(alerts, i);
    var l := LatestOf(alerts, j);
    assert alerts[i] in alerts && alerts[j] in alerts && alerts[k] in alerts && alerts[l] in alerts;
    SameIdText(alerts[i], alerts[k]);
    SameIdText(alerts[j], alerts[l]);
    SameIdText(alerts[i], alerts[j]);
    assert RecordOf(alerts[k]) in m && RecordOf(alerts[l]) in m;
  }

  /** handleRestAlerts; `order` is the order of the database's iterator. */
  method HandleRestAlerts(db: RocksDbWrapper, params: seq<(Text, Text)>, order: seq<Text>, ghost alerts: seq<Alert>)
      returns (response: Response)
    requires Holds(db.entries, alerts) && Enumerates(order, db.entries)
    ensures response.BadRequest? <==> |params| > 1 || (|params| == 1 && params[0].0 != Ascii("id"))
    ensures |params| == 0 || (|params| == 1 && params[0] == (Ascii("id"), [])) ==>
      response.Found? && forall r :: r in response.records <==> IsRecord(alerts, r)
    ensures |params| == 1 && params[0].0 == Ascii("id") && params[0].1 != [] ==>
      match response
      case Found(records) =>
        && records != [] && (forall r :: r in records <==> IsRecordOf(alerts, params[0].1, r))
        && (|records| == 1 <==> OneTime(alerts, params[0].1))
      case _ => response.NotFound? && forall a <- alerts :: Dec(a.id) != params[0].1
  {
    hide Holds, Matching, RecordKey, Dec, Latest;
    if |params| > 1 || (|params| == 1 && params[0].0 != Ascii("id")) {
      return BadRequest;
    }
    var id := if |params| == 0 then [] else params[0].1;
    if id == [] {
      var all := db.GetJsonByKeySubstrings(order, [ALERTS]);
      AllAlertsFound(db.entries, alerts, order);
      return Found(all);
    }
    var records := db.GetJsonByKeySubstrings(order, [ALERTS, SearchPart(id)]);
    AlertByIdFound(db.entries, alerts, order, id);
    if records == [] {
      HoldsProper(db.entries, alerts);
      response := NotFound;
      forall a | a in alerts ensures Dec(a.id) != id {
        SomeWithId(alerts, id, a);
      }
    } else {
      response := Found(records);
    }
  }

  lemma SomeWithId(alerts: seq<Alert>, id: Text, a: Alert)
    requires a in alerts && forall b <- alerts :: Proper(b)
    ensures Dec(a.id) == id ==> exists r :: IsRecordOf(alerts, id, r)
  {
    hide RecordKey, Dec, Latest;
    var i :| 0 <= i < |alerts| && alerts[i] == a;
    var k := LatestOf(alerts, i);
    assert alerts[k] in alerts;
    SameIdText(alerts[i], alerts[k]);
    assert Dec(a.id) == id ==> IsRecordOf(alerts, id, RecordOf(alerts[k]));
  }
}
