/**
  The validity window of the certificate class: getDates turns the tool's
  "notBefore=...\nnotAfter=..." output into an array, and isValid checks the
  current time against every entry of it, failing closed on any other key.
  The clock and the date parser (time() and strtotime) are parameters.
*/
module Validity {
  import opened Php

  const NotBefore: string := "notBefore"
  const NotAfter: string := "notAfter"

  /** The array getDates builds from a non-null dates output: one entry per line holding '='. */
  function DatesOf(lines: seq<string>): (m: map<string, string>)
  {
    Assign(lines, KeyValue)
  }

  /** getDates: null for null, otherwise the array of the output's lines. */
  function Dates(dates: Option<string>): (m: Option<map<string, string>>)
  {
    if dates.None? then None else Some(DatesOf(Explode('\n', dates.value)))
  }

  /**
    The parsed dates hold exactly the keys of the lines that have '=' (the
    untrimmed text before the first '='), each with the trimmed text after the
    '=' of the last line that has that key.
  */
  lemma DatesLastWins(data: string)
    ensures forall k :: k in Dates(Some(data)).value <==>
      exists i :: 0 <= i < |Explode('\n', data)| && Writes(KeyValue(Explode('\n', data)[i]), k)
    ensures forall i :: 0 <= i < |Explode('\n', data)| && LastWriter(Explode('\n', data), KeyValue, i) ==>
      var kv := KeyValue(Explode('\n', data)[i]);
      kv.value.0 in Dates(Some(data)).value && Dates(Some(data)).value[kv.value.0] == kv.value.1
  {
    var lines := Explode('\n', data);
    forall k ensures k in DatesOf(lines) <==> exists i :: 0 <= i < |lines| && Writes(KeyValue(lines[i]), k) {
      AssignKeys(lines, KeyValue, k);
    }
    forall i | 0 <= i < |lines| && LastWriter(lines, KeyValue, i)
      ensures KeyValue(lines[i]).value.0 in DatesOf(lines)
      ensures DatesOf(lines)[KeyValue(lines[i]).value.0] == KeyValue(lines[i]).value.1
    {
      AssignLastWins(lines, KeyValue, i);
    }
  }

  /** Two lines, each ended by a line break, split into the two lines and a last empty piece. */
  lemma ExplodeTwoLines(l1: string, l2: string)
    requires '\n' !in l1 && '\n' !in l2
    ensures Explode('\n', l1 + "\n" + l2 + "\n") == [l1, l2, []]
  {
    assert l1 + "\n" + l2 + "\n" == l1 + ['\n'] + (l2 + ['\n'] + []);
    ExplodeSeparated('\n', l2, []);
    ExplodeSeparated('\n', l1, l2 + ['\n'] + []);
    assert Explode('\n', []) == [[]];
  }

  /** Assigning two writing lines with distinct keys and a line that writes nothing gives the two entries. */
  lemma AssignTwoLines(lines: seq<string>, entry: string -> Option<(string, string)>, k1: string, t1: string, k2: string, t2: string)
    requires |lines| == 3 && k1 != k2
    requires entry(lines[0]) == Some((k1, t1)) && entry(lines[1]) == Some((k2, t2)) && entry(lines[2]) == None
    ensures Assign(lines, entry) == map[k1 := t1, k2 := t2]
  {
    assert lines[..2][..1][..0] == [];
    assert Assign(lines[..2][..1], entry) == map[k1 := t1];
    assert Assign(lines[..2], entry) == map[k1 := t1, k2 := t2];
  }

  /**
    Two "key=value" lines with distinct keys, each ended by a line break,
    parse to exactly the two keys with their trimmed values.
  */
  lemma TwoLines(k1: string, v1: string, k2: string, v2: string)
    requires '=' !in k1 && '=' !in k2 && k1 != k2
    requires '\n' !in k1 && '\n' !in k2 && '\n' !in v1 && '\n' !in v2
    ensures Dates(Some(k1 + "=" + v1 + "\n" + k2 + "=" + v2 + "\n")) == Some(map[k1 := Trim(v1), k2 := Trim(v2)])
  {
    var l1, l2 := k1 + "=" + v1, k2 + "=" + v2;
    assert '\n' !in l1 && '\n' !in l2;
    assert k1 + "=" + v1 + "\n" + k2 + "=" + v2 + "\n" == l1 + "\n" + l2 + "\n";
    ExplodeTwoLines(l1, l2);
    KeyValueOf(k1, v1);
    KeyValueOf(k2, v2);
    KeyValueAtFirstEquals([]);
    AssignTwoLines([l1, l2, []], KeyValue, k1, Trim(v1), k2, Trim(v2));
  }

  /**
    The two-line output the tool prints, with a line break after each line,
    parses to exactly the two trimmed dates.
  */
  lemma TwoLineDates(before: string, after: string)
    requires '\n' !in before && '\n' !in after
    ensures Dates(Some(NotBefore + "=" + before + "\n" + NotAfter + "=" + after + "\n")) ==
      Some(map[NotBefore := Trim(before), NotAfter := Trim(after)])
  {
    TwoLines(NotBefore, before, NotAfter, after);
  }

  /** One entry of the dates array passes the check at time now. */
  predicate EntryValid(key: string, value: string, now: int, parseTime: string -> int)
  {
    if key == NotBefore then now >= parseTime(value)
    else if key == NotAfter then now <= parseTime(value)
    else false
  }

  /** isValid over the dates array: false for null, otherwise every entry passes. */
  predicate WindowValid(dates: Option<map<string, string>>, now: int, parseTime: string -> int)
  {
    dates.Some? && forall k :: k in dates.value ==> EntryValid(k, dates.value[k], now, parseTime)
  }

  /**
    What the check accepts, restated on the keys: only notBefore and notAfter
    may occur, each bound is inclusive, and a missing key is not required.
  */
  lemma WindowValidIff(m: map<string, string>, now: int, parseTime: string -> int)
    ensures WindowValid(Some(m), now, parseTime) <==>
      && m.Keys <= {NotBefore, NotAfter}
      && (NotBefore in m ==> parseTime(m[NotBefore]) <= now)
      && (NotAfter in m ==> now <= parseTime(m[NotAfter]))
  {
    if WindowValid(Some(m), now, parseTime) {
      forall k | k in m ensures k in {NotBefore, NotAfter} {
        assert EntryValid(k, m[k], now, parseTime);
      }
    }
  }

  /** For the tool's two-line output the check is exactly notBefore <= now <= notAfter. */
  lemma TwoLineValidity(before: string, after: string, now: int, parseTime: string -> int)
    requires '\n' !in before && '\n' !in after
    ensures WindowValid(Dates(Some(NotBefore + "=" + before + "\n" + NotAfter + "=" + after + "\n")), now, parseTime) <==>
      parseTime(Trim(before)) <= now <= parseTime(Trim(after))
  {
    TwoLineDates(before, after);
    WindowValidIff(map[NotBefore := Trim(before), NotAfter := Trim(after)], now, parseTime);
  }

  /** What the line at index i adds to the array. */
  lemma LineStep(lines: seq<string>, i: nat)
    requires i < |lines|
    ensures var kv := KeyValue(lines[i]);
      Assign(lines[..i + 1], KeyValue) ==
        if kv.Some? then Assign(lines[..i], KeyValue)[kv.value.0 := kv.value.1] else Assign(lines[..i], KeyValue)
  {
    assert lines[..i + 1][..i] == lines[..i];
    assert lines[..i + 1][i] == lines[i];
  }

  /** getDates: null for a null output, otherwise the array its lines build. */
  method ParseDates(dates: Option<string>) returns (r: Option<map<string, string>>)
    ensures r.None? <==> dates.None?
    ensures r == Dates(dates)
  {
    if dates.None? {
      return None;
    }
    var lines := Explode('\n', dates.value);
    var result := AssignLines(lines);
    r := Some(result);
  }

  /** getDates' loop: assign each "key=value" line in turn, a later line overwriting an earlier one. */
  method AssignLines(lines: seq<string>) returns (result: map<string, string>)
    ensures result == DatesOf(lines)
  {
    result := map[];
    var i := 0;
    while i < |lines|
      invariant 0 <= i <= |lines|
      invariant result == Assign(lines[..i], KeyValue)
    {
      LineStep(lines, i);
      var kv := KeyValue(lines[i]);
      if kv.Some? {
        result := result[kv.value.0 := kv.value.1];
      }
      i := i + 1;
    }
    assert lines[..|lines|] == lines;
  }

  /**
    isValid's loop over the dates array, in whatever order the entries come:
    it returns false at the first entry that fails and true when none does.
  */
  method IsValidWindow(dates: Option<map<string, string>>, now: int, parseTime: string -> int) returns (valid: bool)
    ensures valid == WindowValid(dates, now, parseTime)
  {
    if dates.None? {
      return false;
    }
    var m := dates.value;
    var pending := m.Keys;
    while pending != {}
      invariant pending <= m.Keys
      invariant forall k :: k in m.Keys - pending ==> EntryValid(k, m[k], now, parseTime)
      decreases pending
    {
      var key :| key in pending;
      var value := m[key];
      if key == NotBefore {
        if now < parseTime(value) {
          return false;
        }
      } else if key == NotAfter {
        if now > parseTime(value) {
          return false;
        }
      } else {
        return false;
      }
      pending := pending - {key};
    }
    return true;
  }
}
