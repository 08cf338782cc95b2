/**
  The escape decoder of the certificate class: every `\x` followed by a run
  of hexadecimal digits becomes the one byte `chr(hexdec(run))`, scanning the
  text from left to right; the byte produced is not scanned again.
*/
module Escapes {

  predicate IsHexDigit(c: char)
  {
    ('0' <= c <= '9') || ('a' <= c <= 'f') || ('A' <= c <= 'F')
  }

  function DigitValue(c: char): (d: nat)
    requires IsHexDigit(c)
    ensures d < 16
  {
    if '0' <= c <= '9' then c as int - '0' as int
    else if 'a' <= c <= 'f' then c as int - 'a' as int + 10
    else c as int - 'A' as int + 10
  }

  predicate IsHexRun(h: string)
  {
    forall i :: 0 <= i < |h| ==> IsHexDigit(h[i])
  }

  /** hexdec(h), on unbounded integers. */
  function HexDec(h: string): (n: nat)
    requires IsHexRun(h)
  {
    if h == [] then 0 else 16 * HexDec(h[..|h| - 1]) + DigitValue(h[|h| - 1])
  }

  /** chr(n): the byte whose value is n modulo 256. */
  function Chr(n: nat): (c: char)
    ensures c as int < 256 && c as int == n % 256
  {
    (n % 256) as char
  }

  /** The length of the longest run of hexadecimal digits at the start of s: the regex's greedy `+`. */
  function HexRunLength(s: string): (n: nat)
    ensures n <= |s| && IsHexRun(s[..n])
    ensures n == |s| || !IsHexDigit(s[n])
    decreases |s|
  {
    if s != [] && IsHexDigit(s[0]) then
      var n := 1 + HexRunLength(s[1..]);
      assert s[..n] == [s[0]] + s[1..][..n - 1];
      n
    else 0
  }

  /** A match of `\x[0-9A-Fa-f]+` starts at index i. */
  predicate EscapeAt(s: string, i: int)
  {
    0 <= i && i + 2 < |s| && s[i] == '\\' && s[i + 1] == 'x' && IsHexDigit(s[i + 2])
  }

  /**
    convertXcodesToText: each maximal `\x`+hex match, taken from left to right,
    is replaced by one byte. The result is never longer than the input.
  */
  function ConvertXcodes(s: string): (r: string)
    ensures |r| <= |s|
    decreases |s|
  {
    if EscapeAt(s, 0) then
      var n := HexRunLength(s[2..]);
      assert s[2..2 + n] == s[2..][..n];
      [Chr(HexDec(s[2..2 + n]))] + ConvertXcodes(s[2 + n..])
    else if s == [] then []
    else [s[0]] + ConvertXcodes(s[1..])
  }

  /** The value of a two-digit run. */
  lemma HexDecPair(h: string)
    requires |h| == 2 && IsHexRun(h)
    ensures HexDec(h) == 16 * DigitValue(h[0]) + DigitValue(h[1])
  {
    var a := h[..|h| - 1];
    assert a[..0] == [];
    assert a[0] == h[0];
    assert HexDec(a) == DigitValue(h[0]);
  }

  lemma ModOfBase(high: nat, low: nat)
    requires low < 256
    ensures (256 * high + low) % 256 == low
  {
  }

  /** The byte a run stands for depends only on its last two hexadecimal digits. */
  lemma ChrOfLastTwoDigits(h: string)
    requires |h| >= 1 && IsHexRun(h)
    ensures Chr(HexDec(h)) as int ==
      if |h| == 1 then DigitValue(h[0])
      else 16 * DigitValue(h[|h| - 2]) + DigitValue(h[|h| - 1])
  {
    var n := |h|;
    if n >= 2 {
      var init := h[..n - 1];
      assert init[..n - 2] == h[..n - 2];
      assert init[n - 2] == h[n - 2];
      var high := HexDec(h[..n - 2]);
      var d1, d0 := DigitValue(h[n - 2]), DigitValue(h[n - 1]);
      assert HexDec(init) == 16 * high + d1;
      assert HexDec(h) == 16 * HexDec(init) + d0;
      assert HexDec(h) == 256 * high + (16 * d1 + d0);
      ModOfBase(high, 16 * d1 + d0);
    } else {
      assert h[..0] == [];
    }
  }

  /** Text holding no match comes back unchanged. */
  lemma {:induction false} NoEscapeUnchanged(s: string)
    requires forall i :: 0 <= i < |s| ==> !EscapeAt(s, i)
    ensures ConvertXcodes(s) == s
    decreases |s|
  {
    if s != [] {
      assert !EscapeAt(s, 0);
      forall i | 0 <= i < |s| - 1 ensures !EscapeAt(s[1..], i) {
        assert !EscapeAt(s, i + 1);
      }
      NoEscapeUnchanged(s[1..]);
      assert [s[0]] + s[1..] == s;
    }
  }

  lemma {:induction false} HexRunLengthOf(h: string, t: string)
    requires IsHexRun(h)
    requires t == [] || !IsHexDigit(t[0])
    ensures HexRunLength(h + t) == |h|
    decreases |h|
  {
    if h != [] {
      assert (h + t)[1..] == h[1..] + t;
      HexRunLengthOf(h[1..], t);
    } else {
      assert h + t == t;
    }
  }

  /** A whole match `\x`+h followed by a non-digit is replaced by the single byte chr(hexdec(h)). */
  lemma EscapeReplaced(h: string, t: string)
    requires |h| >= 1 && IsHexRun(h)
    requires t == [] || !IsHexDigit(t[0])
    ensures ConvertXcodes("\\x" + h + t) == [Chr(HexDec(h))] + ConvertXcodes(t)
  {
    var s := "\\x" + h + t;
    assert s[2..] == h + t;
    HexRunLengthOf(h, t);
    assert s[2..2 + |h|] == h;
    assert s[2 + |h|..] == t;
  }

  /** Text holding no backslash passes through, and decoding resumes after it. */
  lemma {:induction false} PlainPrefix(p: string, t: string)
    requires '\\' !in p
    ensures ConvertXcodes(p + t) == p + ConvertXcodes(t)
    decreases |p|
  {
    if p != [] {
      assert (p + t)[0] == p[0];
      assert (p + t)[1..] == p[1..] + t;
      PlainPrefix(p[1..], t);
      assert [p[0]] + p[1..] == p;
    } else {
      assert p + t == t;
    }
  }

  /**
    Text in which no match starts passes through unchanged, even when it holds
    backslashes, and decoding resumes after it.
  */
  lemma {:induction false} NoMatchPrefix(p: string, t: string)
    requires forall i :: 0 <= i < |p| ==> !EscapeAt(p + t, i)
    ensures ConvertXcodes(p + t) == p + ConvertXcodes(t)
    decreases |p|
  {
    if p != [] {
      var s := p + t;
      assert !EscapeAt(s, 0);
      assert s[0] == p[0];
      assert s[1..] == p[1..] + t;
      forall i | 0 <= i < |p| - 1 ensures !EscapeAt(p[1..] + t, i) {
        assert !EscapeAt(s, i + 1);
      }
      NoMatchPrefix(p[1..], t);
      assert [p[0]] + p[1..] == p;
    } else {
      assert p + t == t;
    }
  }

  /** A backslash followed by a character other than x, then a backslash, starts no match at either of its two places. */
  lemma StrayPairNoMatch(c: char, r: string)
    requires c != 'x' && |r| >= 1 && r[0] == '\\'
    ensures forall i :: 0 <= i < 2 ==> !EscapeAt(['\\', c] + r, i)
  {
    var s := ['\\', c] + r;
    assert s[1] == c && s[2] == '\\';
  }

  /** A backslash not followed by an x starts no match: `\q\x41` decodes to `\qA`; likewise for any such pair before a match. */
  lemma StrayBackslash(c: char, h: string, t: string)
    requires c != 'x'
    requires |h| >= 1 && IsHexRun(h)
    requires t == [] || !IsHexDigit(t[0])
    ensures ConvertXcodes(['\\', c] + ("\\x" + h + t)) == ['\\', c] + [Chr(HexDec(h))] + ConvertXcodes(t)
  {
    var p, r := ['\\', c], "\\x" + h + t;
    StrayPairNoMatch(c, r);
    NoMatchPrefix(p, r);
    var b := Chr(HexDec(h));
    assert ConvertXcodes(r) == [b] + ConvertXcodes(t) by { EscapeReplaced(h, t); }
    assert p + ([b] + ConvertXcodes(t)) == p + [b] + ConvertXcodes(t);
  }

  /** The instance: `\q\x41` decodes to `\qA`. */
  lemma StrayBackslashExample()
    ensures ConvertXcodes("\\q" + "\\x" + "41") == "\\qA"
  {
    StrayBackslash('q', "41", "");
    HexDecPair("41");
    assert "\\q" + "\\x" + "41" == ['\\', 'q'] + ("\\x" + "41" + "");
  }

  /** Backslash-free text followed by three escaped bytes decodes to the text and the three bytes. */
  lemma ThreeEscapes(p: string, x: string, y: string, z: string)
    requires '\\' !in p
    requires |x| == 2 && |y| == 2 && |z| == 2 && IsHexRun(x) && IsHexRun(y) && IsHexRun(z)
    ensures ConvertXcodes(p + ("\\x" + x + ("\\x" + y + ("\\x" + z)))) == p + [Chr(HexDec(x)), Chr(HexDec(y)), Chr(HexDec(z))]
  {
    var cx, cy, cz := Chr(HexDec(x)), Chr(HexDec(y)), Chr(HexDec(z));
    var tz := "\\x" + z;
    var tyz := "\\x" + y + tz;
    var e := "\\x" + x + tyz;
    assert ConvertXcodes(tz) == [cz] by {
      EscapeReplaced(z, "");
      assert tz + "" == tz;
    }
    assert ConvertXcodes(tyz) == [cy, cz] by {
      EscapeReplaced(y, tz);
    }
    assert ConvertXcodes(e) == [cx, cy, cz] by {
      EscapeReplaced(x, tyz);
    }
    PlainPrefix(p, e);
  }

  /**
    The worked example: `Company \x41\x42\x43` decodes to `Company ABC`; more
    generally any backslash-free text followed by those three escapes.
  */
  lemma CompanyExample(p: string)
    requires '\\' !in p
    ensures ConvertXcodes(p + ("\\x41" + ("\\x42" + "\\x43"))) == p + "ABC"
  {
    assert Chr(HexDec("41")) == 'A' by { HexDecPair("41"); }
    assert Chr(HexDec("42")) == 'B' by { HexDecPair("42"); }
    assert Chr(HexDec("43")) == 'C' by { HexDecPair("43"); }
    assert "\\x41" + ("\\x42" + "\\x43") == "\\x" + "41" + ("\\x" + "42" + ("\\x" + "43"));
    ThreeEscapes(p, "41", "42", "43");
  }

  /**
    The decoded byte is not scanned again: after a match the text that follows
    is decoded on its own, whatever byte the match produced.
  */
  lemma NotRescanned(h: string, t: string)
    requires |h| >= 1 && IsHexRun(h)
    requires t == [] || !IsHexDigit(t[0])
    requires '\\' !in t
    ensures ConvertXcodes("\\x" + h + t) == [Chr(HexDec(h))] + t
  {
    EscapeReplaced(h, t);
    PlainPrefix(t, "");
    assert t + "" == t;
  }

  /** `\x5c` decodes to a backslash, and `\x5cx41` to the four characters `\x41`; likewise for any text after the x. */
  lemma BackslashNotRescanned(d: string)
    requires '\\' !in d
    ensures ConvertXcodes("\\x" + "5c" + ("x" + d)) == ['\\'] + ("x" + d)
  {
    NotRescanned("5c", "x" + d);
    HexDecPair("5c");
  }
}
