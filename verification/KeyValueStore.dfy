/**
  The RocksDB wrapper over an abstract map from keys to values, with the search for keys that
  contain given substrings. Keys and values are C++ strings, that is, sequences of bytes.
*/
module KeyValueStore {
  import opened Bytes

  /** The bytes of an ASCII string. */
  function Ascii(s: string): (t: Text)
    requires forall i | 0 <= i < |s| :: s[i] < 128 as char
    ensures |t| == |s| && forall i | 0 <= i < |s| :: t[i] == s[i] as int
  {
    seq(|s|, i requires 0 <= i < |s| => s[i] as int)
  }

  /** Two databases hold the same under a key. */
  predicate Agree(a: map<Text, Text>, b: map<Text, Text>, key: Text) {
    (key in a <==> key in b) && (key in a ==> a[key] == b[key])
  }

  /** What the first n of some puts make of a database. */
  function Written(entries: map<Text, Text>, puts: seq<(Text, Text)>, n: nat): map<Text, Text>
    decreases |puts|
  {
    if puts == [] || n == 0 then entries
    else Written(entries[puts[0].0 := puts[0].1], puts[1..], n - 1)
  }

  lemma NothingWritten(entries: map<Text, Text>, puts: seq<(Text, Text)>, n: nat)
    requires |puts| == 0
    ensures Written(entries, puts, n) == entries
  {
  }

  lemma WrittenNext(entries: map<Text, Text>, puts: seq<(Text, Text)>, n: nat)
    requires puts != []
    ensures Written(entries, puts, n)
         == if n == 0 then Written(entries, puts[1..], 0)
            else Written(entries[puts[0].0 := puts[0].1], puts[1..], n - 1)
  {
  }

  lemma OneWritten(entries: map<Text, Text>, key: Text, value: Text, n: nat)
    ensures Written(entries, [(key, value)], n) == if n == 0 then entries else entries[key := value]
  {
    WrittenNext(entries, [(key, value)], n);
  }

  lemma {:induction false} WrittenElsewhere(entries: map<Text, Text>, puts: seq<(Text, Text)>, n: nat, key: Text)
    requires forall p <- puts :: p.0 != key
    ensures Agree(entries, Written(entries, puts, n), key)
    decreases |puts|
  {
    if puts != [] && n > 0 {
      WrittenElsewhere(entries[puts[0].0 := puts[0].1], puts[1..], n - 1, key);
    }
  }

  /** Under this key the second database has the value, if it has been put, and else what the first one has. */
  predicate IsSet(a: map<Text, Text>, b: map<Text, Text>, key: Text, value: Text, put: bool) {
    if put then key in b && b[key] == value else Agree(a, b, key)
  }

  /** Of puts under distinct keys, exactly the first n set their values. */
  lemma {:induction false} WrittenAt(entries: map<Text, Text>, puts: seq<(Text, Text)>, n: nat, i: nat)
    requires i < |puts| && forall j, k | 0 <= j < k < |puts| :: puts[j].0 != puts[k].0
    ensures IsSet(entries, Written(entries, puts, n), puts[i].0, puts[i].1, i < n)
    decreases |puts|
  {
    var first := entries[puts[0].0 := puts[0].1];
    if n > 0 && i == 0 {
      WrittenElsewhere(first, puts[1..], n - 1, puts[0].0);
    } else if n > 0 {
      WrittenAt(first, puts[1..], n - 1, i - 1);
    }
  }

  predicate Contains(t: Text, part: Text) {
    exists i | 0 <= i <= |t| :: StandsAt(t, i, part)
  }

  datatype Record = Record(key: Text, value: Text)

  predicate ContainsAll(key: Text, substrings: seq<Text>) {
    forall part <- substrings :: Contains(key, part)
  }

  /** The order in which an iterator meets the keys of the database. */
  ghost predicate Enumerates(order: seq<Text>, entries: map<Text, Text>) {
    && (forall key :: key in order <==> key in entries)
    && forall i, j | 0 <= i < j < |order| :: order[i] != order[j]
  }

  /** The entries whose keys contain all substrings, in order. */
  function Matching(entries: map<Text, Text>, order: seq<Text>, substrings: seq<Text>): seq<Record>
    requires forall key <- order :: key in entries
  {
    if order == [] then []
    else
      var last := order[|order| - 1];
      Matching(entries, order[..|order| - 1], substrings)
      + (if ContainsAll(last, substrings) then [Record(last, entries[last])] else [])
  }

  lemma {:induction false} MatchingExact(entries: map<Text, Text>, order: seq<Text>, substrings: seq<Text>)
    requires forall key <- order :: key in entries
    ensures forall r :: r in Matching(entries, order, substrings) <==>
      r.key in order && r.value == entries[r.key] && ContainsAll(r.key, substrings)
  {
    hide ContainsAll;
    if order != [] {
      MatchingExact(entries, order[..|order| - 1], substrings);
      assert order == order[..|order| - 1] + [order[|order| - 1]];
    }
  }

  predicate DistinctKeys(records: seq<Record>) {
    forall i, j | 0 <= i < j < |records| :: records[i].key != records[j].key
  }

  lemma {:induction false} MatchingDistinct(entries: map<Text, Text>, order: seq<Text>, substrings: seq<Text>)
    requires forall key <- order :: key in entries
    requires forall i, j | 0 <= i < j < |order| :: order[i] != order[j]
    ensures DistinctKeys(Matching(entries, order, substrings))
  {
    hide ContainsAll;
    if order != [] {
      var before := order[..|order| - 1];
      MatchingDistinct(entries, before, substrings);
      MatchingExact(entries, before, substrings);
      forall i | 0 <= i < |Matching(entries, before, substrings)|
        ensures Matching(entries, before, substrings)[i].key != order[|order| - 1]
      {
        assert Matching(entries, before, substrings)[i] in Matching(entries, before, substrings);
      }
    }
  }

  /** std::string::find, as far as its callers look at the result. */
  method Find(t: Text, part: Text) returns (found: bool)
    ensures found <==> Contains(t, part)
  {
    var i := 0;
    while i + |part| <= |t|
      invariant 0 <= i && forall k | 0 <= k < i :: !StandsAt(t, k, part)
    {
      if t[i..i + |part|] == part {
        assert StandsAt(t, i, part);
        return true;
      }
      i := i + 1;
    }
    found := false;
  }

  class RocksDbWrapper {
    var entries: map<Text, Text>

    constructor ()
      ensures entries == map[]
    {
      entries := map[];
    }

    method Put(key: Text, value: Text)
      modifies this
      ensures entries == old(entries)[key := value]
    {
      entries := entries[key := value];
    }

    /**
      One of the puts of a handler, of which `left` are yet to take effect: they end when the
      database does not open, when a put fails, or when the process dies.
    */
    method PutNext(key: Text, value: Text, left: nat) returns (rest: nat)
      modifies this
      ensures left == 0 ==> rest == 0 && entries == old(entries)
      ensures left > 0 ==> rest == left - 1 && entries == old(entries)[key := value]
      ensures forall puts {:trigger Written(old(entries), puts, left)} | puts != [] && puts[0] == (key, value) ::
        Written(old(entries), puts, left) == Written(entries, puts[1..], rest)
    {
      rest := 0;
      if left > 0 {
        Put(key, value);
        rest := left - 1;
      }
      forall puts | puts != [] && puts[0] == (key, value)
        ensures Written(old(entries), puts, left) == Written(entries, puts[1..], rest)
      {
        WrittenNext(old(entries), puts, left);
      }
    }

    /** None stands for the exception that a missing key raises. */
    method GetValueByKey(key: Text) returns (value: Option<Text>)
      ensures value == if key in entries then Some(entries[key]) else None
    {
      value := if key in entries then Some(entries[key]) else None;
    }

    method GetJsonByKeySubstrings(order: seq<Text>, substrings: seq<Text>) returns (results: seq<Record>)
      requires Enumerates(order, entries)
      ensures results == Matching(entries, order, substrings)
    {
      results := [];
      var n := 0;
      while n < |order|
        invariant 0 <= n <= |order| && results == Matching(entries, order[..n], substrings)
      {
        var key := order[n];
        var allFound := true;
        var m := 0;
        while m < |substrings| && allFound
          invariant 0 <= m <= |substrings|
          invariant allFound <==> ContainsAll(key, substrings[..m])
          invariant allFound || !ContainsAll(key, substrings)
        {
          assert substrings[..m + 1] == substrings[..m] + [substrings[m]];
          allFound := Find(key, substrings[m]);
          m := m + 1;
        }
        assert allFound ==> substrings[..m] == substrings;
        if allFound {
          results := results + [Record(key, entries[key])];
        }
        assert order[..n + 1][..n] == order[..n];
        n := n + 1;
      }
      assert order[..n] == order;
    }
  }
}
