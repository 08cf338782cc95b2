/**
  The PHP built-ins that the certificate class relies on, stated on strings
  taken as sequences of byte-valued characters. PHP's `null` is `None`.
*/
module Php {

  datatype Option<+T> = None | Some(value: T)

  /** implode(c, parts): the parts joined by the one-character glue c. */
  function Implode(c: char, parts: seq<string>): (s: string)
  {
    if |parts| == 0 then []
    else if |parts| == 1 then parts[0]
    else parts[0] + [c] + Implode(c, parts[1..])
  }

  /**
    explode(c, s): the pieces of s between the occurrences of c. There is
    always at least one piece, no piece holds c, and gluing the pieces back
    with c gives s.
  */
  function Explode(c: char, s: string): (parts: seq<string>)
    ensures |parts| >= 1
    ensures forall i :: 0 <= i < |parts| ==> c !in parts[i]
    ensures Implode(c, parts) == s
    decreases |s|
  {
    if s == [] then [[]]
    else
      var rest := Explode(c, s[1..]);
      if s[0] == c then
        assert ([[]] + rest)[1..] == rest;
        [[]] + rest
      else
        var parts := [[s[0]] + rest[0]] + rest[1..];
        assert parts[1..] == rest[1..];
        assert Implode(c, parts) == [s[0]] + Implode(c, rest);
        parts
  }

  /** A piece free of the separator, followed by the separator, is split off as the first piece. */
  lemma {:induction false} ExplodeSeparated(c: char, p: string, t: string)
    requires c !in p
    ensures Explode(c, p + [c] + t) == [p] + Explode(c, t)
    decreases |p|
  {
    var s := p + [c] + t;
    if p == [] {
      assert s[1..] == t;
    } else {
      assert s[1..] == p[1..] + [c] + t;
      ExplodeSeparated(c, p[1..], t);
      assert [s[0]] + p[1..] == p;
    }
  }

  /** A string free of the separator is one piece. */
  lemma {:induction false} ExplodeFree(c: char, p: string)
    requires c !in p
    ensures Explode(c, p) == [p]
    decreases |p|
  {
    if p != [] {
      ExplodeFree(c, p[1..]);
      assert [p[0]] + p[1..] == p;
    }
  }

  /** explode undoes implode on pieces that do not hold the glue. */
  lemma {:induction false} ExplodeImplode(c: char, parts: seq<string>)
    requires |parts| >= 1
    requires forall i :: 0 <= i < |parts| ==> c !in parts[i]
    ensures Explode(c, Implode(c, parts)) == parts
    decreases |parts|
  {
    if |parts| == 1 {
      ExplodeFree(c, parts[0]);
    } else {
      ExplodeImplode(c, parts[1..]);
      ExplodeSeparated(c, parts[0], Implode(c, parts[1..]));
      assert [parts[0]] + parts[1..] == parts;
    }
  }

  /** The characters PHP's trim strips by default: space, tab, LF, CR, NUL and vertical tab. */
  predicate IsTrimmable(ch: char)
  {
    ch == ' ' || ch == '\t' || ch == '\n' || ch == '\r' || ch == '\0' || ch == '\U{0B}'
  }

  /** The leading run of trimmable characters removed: a suffix of s. */
  function TrimStart(s: string): (r: string)
    ensures |r| <= |s| && r == s[|s| - |r|..]
    ensures forall i :: 0 <= i < |s| - |r| ==> IsTrimmable(s[i])
    ensures r == [] || !IsTrimmable(r[0])
    decreases |s|
  {
    if s != [] && IsTrimmable(s[0]) then TrimStart(s[1..]) else s
  }

  /** The trailing run of trimmable characters removed: a prefix of s. */
  function TrimEnd(s: string): (r: string)
    ensures |r| <= |s| && r == s[..|r|]
    ensures forall i :: |r| <= i < |s| ==> IsTrimmable(s[i])
    ensures r == [] || !IsTrimmable(r[|r| - 1])
    decreases |s|
  {
    if s != [] && IsTrimmable(s[|s| - 1]) then TrimEnd(s[..|s| - 1]) else s
  }

  /** trim(s): neither end of the result is trimmable, and an empty result means s was all trimmable. */
  function Trim(s: string): (r: string)
    ensures |r| <= |s|
    ensures r == [] || (!IsTrimmable(r[0]) && !IsTrimmable(r[|r| - 1]))
    ensures r == [] ==> forall i :: 0 <= i < |s| ==> IsTrimmable(s[i])
  {
    var t := TrimStart(s);
    var r := TrimEnd(t);
    r
  }

  predicate AllTrimmable(s: string)
  {
    forall i :: 0 <= i < |s| ==> IsTrimmable(s[i])
  }

  lemma {:induction false} TrimStartPadded(l: string, t: string)
    requires AllTrimmable(l)
    requires t == [] || !IsTrimmable(t[0])
    ensures TrimStart(l + t) == t
    decreases |l|
  {
    if l != [] {
      assert (l + t)[1..] == l[1..] + t;
      TrimStartPadded(l[1..], t);
    } else {
      assert l + t == t;
    }
  }

  lemma {:induction false} TrimEndPadded(t: string, r: string)
    requires AllTrimmable(r)
    requires t == [] || !IsTrimmable(t[|t| - 1])
    ensures TrimEnd(t + r) == t
    decreases |r|
  {
    if r != [] {
      assert (t + r)[..|t + r| - 1] == t + r[..|r| - 1];
      TrimEndPadded(t, r[..|r| - 1]);
    } else {
      assert t + r == t;
    }
  }

  /** trim removes exactly the padding: text whose ends are not trimmable comes back unchanged from any padding. */
  lemma TrimPadded(l: string, t: string, r: string)
    requires AllTrimmable(l) && AllTrimmable(r)
    requires t == [] || (!IsTrimmable(t[0]) && !IsTrimmable(t[|t| - 1]))
    ensures Trim(l + t + r) == t
  {
    if t == [] {
      assert l + t + r == l + r;
      assert AllTrimmable(l + r);
      TrimStartPadded(l + r, []);
      assert l + r + [] == l + r;
      TrimEndPadded([], []);
    } else {
      assert l + t + r == l + (t + r);
      TrimStartPadded(l, t + r);
      TrimEndPadded(t, r);
    }
  }

  /** ltrim(s, "0"): the suffix of s left after its leading zeros. */
  function TrimLeadingZeros(s: string): (r: string)
    ensures |r| <= |s| && r == s[|s| - |r|..]
    ensures forall i :: 0 <= i < |s| - |r| ==> s[i] == '0'
    ensures r == [] || r[0] != '0'
    decreases |s|
  {
    if s != [] && s[0] == '0' then TrimLeadingZeros(s[1..]) else s
  }

  /** PHP's `!$v` for a string: the empty string and "0" are falsy. */
  predicate IsFalsy(v: string)
  {
    v == "" || v == "0"
  }

  /** strpos(haystack, needle) !== false, where a null haystack reads as the empty string. */
  predicate Contains(haystack: Option<string>, needle: string)
  {
    var h := if haystack.Some? then haystack.value else "";
    exists i | 0 <= i <= |h| - |needle| :: OccursAt(h, needle, i)
  }

  predicate OccursAt(h: string, needle: string, i: int)
    requires 0 <= i <= |h| - |needle|
  {
    h[i..i + |needle|] == needle
  }

  /**
    The key and the trimmed value of one "key=value" item as the class computes
    them: explode on '=', array_shift the key, implode the rest with '=' and trim
    it; None when explode gives fewer than two pieces.
  */
  function KeyValue(item: string): (kv: Option<(string, string)>)
  {
    var parts := Explode('=', item);
    if |parts| < 2 then None else Some((parts[0], Trim(Implode('=', parts[1..]))))
  }

  /**
    KeyValue splits an item at its FIRST '=': there is a result exactly when the
    item holds '=', the key is the text before the first '=' and the value is
    the trimmed text after it.
  */
  lemma KeyValueAtFirstEquals(item: string)
    ensures KeyValue(item).None? <==> '=' !in item
    ensures KeyValue(item).Some? ==>
      var key := KeyValue(item).value.0;
      && |key| < |item| && item[..|key|] == key && item[|key|] == '='
      && '=' !in key
      && KeyValue(item).value.1 == Trim(item[|key| + 1..])
  {
    var parts := Explode('=', item);
    if |parts| >= 2 {
      var rest := Implode('=', parts[1..]);
      assert item == parts[0] + ['='] + rest;
      assert item[..|parts[0]|] == parts[0];
      assert item[|parts[0]| + 1..] == rest;
    }
  }

  /** An item written as key, '=', value with no '=' in the key gives that key and the trimmed value. */
  lemma KeyValueOf(key: string, value: string)
    requires '=' !in key
    ensures KeyValue(key + "=" + value) == Some((key, Trim(value)))
  {
    assert key + "=" + value == key + ['='] + value;
    ExplodeSeparated('=', key, value);
    var parts := Explode('=', key + "=" + value);
    assert parts[1..] == Explode('=', value);
  }

  /** Whether an entry assigns key k. */
  predicate Writes(e: Option<(string, string)>, k: string)
  {
    e.Some? && e.value.0 == k
  }

  /**
    The array that a `foreach` loop builds with `$a[$key] = $value` over items,
    starting from an empty array; an item whose entry is None is skipped.
  */
  function Assign(items: seq<string>, entry: string -> Option<(string, string)>): (a: map<string, string>)
    decreases |items|
  {
    if items == [] then map[]
    else
      var m := Assign(items[..|items| - 1], entry);
      var e := entry(items[|items| - 1]);
      if e.Some? then m[e.value.0 := e.value.1] else m
  }

  /** Item i assigns a key that no later item assigns again. */
  predicate LastWriter(items: seq<string>, entry: string -> Option<(string, string)>, i: int)
    requires 0 <= i < |items|
  {
    entry(items[i]).Some? &&
    forall j :: i < j < |items| ==> !Writes(entry(items[j]), entry(items[i]).value.0)
  }

  /** The array holds exactly the keys that some item assigns. */
  lemma {:induction false} AssignKeys(items: seq<string>, entry: string -> Option<(string, string)>, k: string)
    ensures k in Assign(items, entry) <==> exists i :: 0 <= i < |items| && Writes(entry(items[i]), k)
    decreases |items|
  {
    if items != [] {
      var n := |items| - 1;
      var init := items[..n];
      AssignKeys(init, entry, k);
      if k in Assign(items, entry) && !Writes(entry(items[n]), k) {
        var i :| 0 <= i < n && Writes(entry(init[i]), k);
        assert init[i] == items[i];
      }
      if exists i :: 0 <= i < |items| && Writes(entry(items[i]), k) {
        var i :| 0 <= i < |items| && Writes(entry(items[i]), k);
        if i < n {
          assert init[i] == items[i];
        }
      }
    }
  }

  /** Each key maps to the value of the last item that assigns it. */
  lemma {:induction false} AssignLastWins(items: seq<string>, entry: string -> Option<(string, string)>, i: int)
    requires 0 <= i < |items| && LastWriter(items, entry, i)
    ensures entry(items[i]).value.0 in Assign(items, entry)
    ensures Assign(items, entry)[entry(items[i]).value.0] == entry(items[i]).value.1
    decreases |items|
  {
    var n := |items| - 1;
    if i < n {
      var init := items[..n];
      assert init[i] == items[i];
      assert forall j :: i < j < n ==> init[j] == items[j];
      assert LastWriter(init, entry, i);
      AssignLastWins(init, entry, i);
    }
  }
}
