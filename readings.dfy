/**
 The reading buffer of TEMP.py: the list `temperature_data` that
 `process_indication` appends decoded readings to (skipping a reading equal to
 one already present), and the selection in `main` that sorts it by timestamp,
 newest first, and uploads the temperature of element 0.
 */
module Readings {
  import opened Wrappers
  import opened Payload

  /** No two entries are equal (dict equality: same valid, temperature and timestamp). */
  ghost predicate NoDuplicates(s: seq<Reading>)
  {
    forall i, j :: 0 <= i < j < |s| ==> s[i] != s[j]
  }

  /**
   The list after the membership test and append of process_indication: it
   keeps a duplicate-free list duplicate-free, keeps the old entries in order
   as a prefix, grows by one exactly when the reading is new (putting it
   last), and always ends up holding the reading.
   */
  function AddIfAbsent(s: seq<Reading>, r: Reading): (t: seq<Reading>)
    ensures |t| == if r in s then |s| else |s| + 1
    ensures t[..|s|] == s
    ensures NoDuplicates(s) ==> NoDuplicates(t)
    ensures r in t
    ensures r !in s ==> t[|s|] == r
  {
    if r in s then s else s + [r]
  }

  /** What process_indication reports (its log lines). */
  datatype Indication = Appended | Duplicate | Unhandled

  /** The failure that leaves process_indication: struct.error from a payload that is not 13 bytes. */
  datatype IndicationError = Malformed(e: DecodeError)

  /** The list of readings that `main` creates and the notification callback appends to. */
  class TemperatureData {
    var data: seq<Reading>

    ghost predicate Valid()
      reads this
    {
      NoDuplicates(data)
    }

    /** main starts each session with an empty list. */
    constructor ()
      ensures Valid() && data == []
    {
      data := [];
    }

    /** process_indication for one notification, with `now` the clock reading at decode time. */
    method ProcessIndication(handle: nat, values: seq<Byte>, handleTemperature: nat, now: nat)
      returns (r: Result<Indication, IndicationError>)
      requires Valid()
      modifies this
      ensures Valid()
      ensures handle != handleTemperature ==> r == Ok(Unhandled) && data == old(data)
      ensures handle == handleTemperature && DecodeTemperature(values, now).Err? ==>
                r == Err(Malformed(StructError)) && data == old(data)
      ensures handle == handleTemperature && DecodeTemperature(values, now).Ok? ==>
                var reading := DecodeTemperature(values, now).value;
                data == AddIfAbsent(old(data), reading)
                && r == Ok(if reading in old(data) then Duplicate else Appended)
    {
      if handle == handleTemperature {
        var decoded := DecodeTemperature(values, now);
        if decoded.Err? {
          return Err(Malformed(decoded.error));
        }
        var reading := decoded.value;
        if reading !in data {
          data := data + [reading];
          r := Ok(Appended);
        } else {
          r := Ok(Duplicate);
        }
      } else {
        r := Ok(Unhandled);
      }
    }
  }

  // ---------------------------------------------------------------------------
  // Sorting the readings by timestamp, newest first
  // ---------------------------------------------------------------------------

  /** Newest first. */
  ghost predicate Descending(s: seq<Reading>)
  {
    forall i, j :: 0 <= i < j < |s| ==> s[i].timestamp >= s[j].timestamp
  }

  /** Put x in front of the first entry of t that is not newer than it. */
  function InsertDescending(x: Reading, t: seq<Reading>): (r: seq<Reading>)
    ensures |r| == |t| + 1
  {
    if t == [] || t[0].timestamp <= x.timestamp then [x] + t
    else [t[0]] + InsertDescending(x, t[1..])
  }

  /**
   Python's sorted with reverse=True: newest first, and, since Python's sort is
   stable also when reversed, equal timestamps keep their list order.
   */
  function SortByTimestampDescending(s: seq<Reading>): (r: seq<Reading>)
    ensures |r| == |s|
  {
    if s == [] then [] else InsertDescending(s[0], SortByTimestampDescending(s[1..]))
  }

  /** The entries with timestamp t, in list order. */
  function WithTimestamp(s: seq<Reading>, t: nat): seq<Reading>
  {
    if s == [] then []
    else (if s[0].timestamp == t then [s[0]] else []) + WithTimestamp(s[1..], t)
  }

  lemma {:induction false} InsertDescendingHead(x: Reading, t: seq<Reading>)
    ensures InsertDescending(x, t)[0] == x || (t != [] && InsertDescending(x, t)[0] == t[0])
  {
  }

  lemma {:induction false} InsertDescendingSorted(x: Reading, t: seq<Reading>)
    requires Descending(t)
    ensures Descending(InsertDescending(x, t))
  {
    if t != [] && t[0].timestamp > x.timestamp {
      InsertDescendingSorted(x, t[1..]);
      InsertDescendingHead(x, t[1..]);
      var r := InsertDescending(x, t);
      var rest := InsertDescending(x, t[1..]);
      assert r == [t[0]] + rest;
      forall i, j | 0 <= i < j < |r| ensures r[i].timestamp >= r[j].timestamp {
        if i > 0 {
          assert r[i] == rest[i - 1] && r[j] == rest[j - 1];
        } else {
          assert r[j] == rest[j - 1];
          assert rest[0].timestamp <= t[0].timestamp;
          assert j - 1 == 0 || rest[0].timestamp >= rest[j - 1].timestamp;
        }
      }
    }
  }

  lemma {:induction false} InsertDescendingPermutes(x: Reading, t: seq<Reading>)
    ensures multiset(InsertDescending(x, t)) == multiset(t) + multiset{x}
  {
    if t != [] && t[0].timestamp > x.timestamp {
      InsertDescendingPermutes(x, t[1..]);
      assert t == [t[0]] + t[1..];
    }
  }

  lemma {:induction false} WithTimestampAppend(a: seq<Reading>, b: seq<Reading>, t: nat)
    ensures WithTimestamp(a + b, t) == WithTimestamp(a, t) + WithTimestamp(b, t)
  {
    if a != [] {
      assert (a + b)[0] == a[0] && (a + b)[1..] == a[1..] + b;
      WithTimestampAppend(a[1..], b, t);
    } else {
      assert a + b == b;
    }
  }

  /** Inserting x into a newest-first list keeps the order of the entries that share a timestamp. */
  lemma {:induction false} InsertDescendingStable(x: Reading, t: seq<Reading>, ts: nat)
    requires Descending(t)
    ensures WithTimestamp(InsertDescending(x, t), ts) == WithTimestamp([x], ts) + WithTimestamp(t, ts)
  {
    if t == [] || t[0].timestamp <= x.timestamp {
      WithTimestampAppend([x], t, ts);
    } else {
      assert Descending(t[1..]) by {
        forall i, j | 0 <= i < j < |t[1..]| ensures t[1..][i].timestamp >= t[1..][j].timestamp {
          assert t[1..][i] == t[i + 1] && t[1..][j] == t[j + 1];
        }
      }
      InsertDescendingStable(x, t[1..], ts);
      WithTimestampAppend([t[0]], InsertDescending(x, t[1..]), ts);
      WithTimestampAppend([t[0]], t[1..], ts);
      assert t == [t[0]] + t[1..];
      if x.timestamp == ts && t[0].timestamp == ts {
        assert false;
      }
    }
  }

  /** The sort puts the newest entries first. */
  lemma {:induction false} SortDescending(s: seq<Reading>)
    ensures Descending(SortByTimestampDescending(s))
  {
    if s != [] {
      SortDescending(s[1..]);
      InsertDescendingSorted(s[0], SortByTimestampDescending(s[1..]));
    }
  }

  /** The sort neither loses nor adds entries. */
  lemma {:induction false} SortPermutes(s: seq<Reading>)
    ensures multiset(SortByTimestampDescending(s)) == multiset(s)
  {
    if s != [] {
      SortPermutes(s[1..]);
      InsertDescendingPermutes(s[0], SortByTimestampDescending(s[1..]));
      assert s == [s[0]] + s[1..];
    }
  }

  /** The sort is stable: the entries of one timestamp appear in the order they were inserted. */
  lemma {:induction false} SortStable(s: seq<Reading>, ts: nat)
    ensures WithTimestamp(SortByTimestampDescending(s), ts) == WithTimestamp(s, ts)
  {
    if s != [] {
      SortStable(s[1..], ts);
      SortDescending(s[1..]);
      InsertDescendingStable(s[0], SortByTimestampDescending(s[1..]), ts);
    }
  }

  // ---------------------------------------------------------------------------
  // Choosing the reading to upload
  // ---------------------------------------------------------------------------

  /** The reading whose temperature is uploaded: element 0 of the sorted list, none when the list is empty. */
  function Freshest(s: seq<Reading>): (r: Option<Reading>)
    ensures r.None? <==> s == []
  {
    if s == [] then None else Some(SortByTimestampDescending(s)[0])
  }

  /** Entry k has the largest timestamp of s, and every entry before it is strictly older. */
  ghost predicate IsFirstNewest(s: seq<Reading>, k: int)
  {
    && 0 <= k < |s|
    && (forall j :: 0 <= j < |s| ==> s[j].timestamp <= s[k].timestamp)
    && (forall j :: 0 <= j < k ==> s[j].timestamp < s[k].timestamp)
  }

  /** The uploaded reading is the newest one, and among equally new ones the first inserted. */
  lemma {:induction false} FreshestIsFirstNewest(s: seq<Reading>) returns (k: nat)
    requires s != []
    ensures IsFirstNewest(s, k) && Freshest(s) == Some(s[k])
  {
    if |s| == 1 {
      k := 0;
    } else {
      var k' := FreshestIsFirstNewest(s[1..]);
      var t := SortByTimestampDescending(s[1..]);
      assert t[0] == s[1..][k'];
      if t[0].timestamp <= s[0].timestamp {
        k := 0;
        forall j | 0 <= j < |s| ensures s[j].timestamp <= s[k].timestamp {
          if j > 0 { assert s[j] == s[1..][j - 1]; }
        }
      } else {
        k := k' + 1;
        forall j | 0 <= j < |s| ensures s[j].timestamp <= s[k].timestamp {
          if j > 0 { assert s[j] == s[1..][j - 1]; }
        }
        forall j | 0 <= j < k ensures s[j].timestamp < s[k].timestamp {
          if j > 0 { assert s[j] == s[1..][j - 1]; }
        }
      }
    }
  }

  /** Timestamps 5, 9, 2 in that order: the reading stamped 9 is uploaded. */
  lemma FreshestExample(a: Reading, b: Reading, c: Reading)
    requires a.timestamp == 5 && b.timestamp == 9 && c.timestamp == 2
    ensures Freshest([a, b, c]) == Some(b)
  {
    var k := FreshestIsFirstNewest([a, b, c]);
    assert [a, b, c][1] == b;
  }

  /** Two readings with the same timestamp: the first inserted is uploaded. */
  lemma FreshestTieExample(a: Reading, b: Reading)
    requires a.timestamp == b.timestamp
    ensures Freshest([a, b]) == Some(a)
  {
    var k := FreshestIsFirstNewest([a, b]);
  }

  /** Readings stamped 100, 300 and again the same 300 reading: two entries are kept and the 300 one is uploaded. */
  lemma DedupThenFreshestExample(a: Reading, b: Reading)
    requires a.timestamp == 100 && b.timestamp == 300
    ensures AddIfAbsent(AddIfAbsent(AddIfAbsent([], a), b), b) == [a, b]
    ensures Freshest([a, b]) == Some(b)
  {
    assert AddIfAbsent([], a) == [a];
    assert b != a;
    assert AddIfAbsent([a], b) == [a, b];
    assert b in [a, b];
    var k := FreshestIsFirstNewest([a, b]);
  }

  /** The selection never looks at the status: a newer reading that is not valid wins over an older valid one. */
  lemma FreshestMayBeInvalid(a: Reading, b: Reading)
    requires a.valid && !b.valid && a.timestamp < b.timestamp
    ensures Freshest([a, b]) == Some(b)
  {
    var k := FreshestIsFirstNewest([a, b]);
    assert [a, b][0] == a && [a, b][1] == b;
  }
}
