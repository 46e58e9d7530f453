/**
 * The pieces of Python's text handling the cleaning code relies on:
 * `str.split` on a one-character separator and `int()` applied to a string.
 * Characters are compared as code points; only ASCII digits count as digits.
 */
module Strings {
  import opened Wrappers

  predicate IsDigit(c: char) { '0' <= c <= '9' }

  function DigitValue(c: char): (d: nat)
    requires IsDigit(c)
    ensures d < 10
  {
    (c as int - '0' as int) as nat
  }

  function DigitChar(d: nat): (c: char)
    requires d < 10
    ensures IsDigit(c) && DigitValue(c) == d
  {
    ('0' as int + d) as char
  }

  predicate AllDigits(s: string) { forall i :: 0 <= i < |s| ==> IsDigit(s[i]) }

  /** The number a run of decimal digits denotes (leading zeros allowed). */
  function DigitsValue(s: string): nat
    requires AllDigits(s)
    decreases |s|
  {
    if s == [] then 0 else DigitsValue(s[..|s| - 1]) * 10 + DigitValue(s[|s| - 1])
  }

  /** The shortest decimal spelling of `n`. */
  function NatDigits(n: nat): (s: string)
    decreases n
  {
    if n < 10 then [DigitChar(n)] else NatDigits(n / 10) + [DigitChar(n % 10)]
  }

  lemma {:induction false} NatDigitsRoundTrip(n: nat)
    ensures |NatDigits(n)| >= 1 && AllDigits(NatDigits(n))
    ensures DigitsValue(NatDigits(n)) == n
    decreases n
  {
    if n >= 10 {
      NatDigitsRoundTrip(n / 10);
      var s := NatDigits(n);
      assert s[..|s| - 1] == NatDigits(n / 10);
    }
  }

  /** The spelling `str(n)` of an integer. */
  function IntToDecimal(n: int): string
  {
    if n < 0 then "-" + NatDigits(-n) else NatDigits(n)
  }

  /** Python's `str.isspace` restricted to ASCII. */
  predicate IsSpace(c: char) { c == ' ' || 9 <= c as int <= 13 || 28 <= c as int <= 31 }

  function StripLeft(s: string): (t: string)
    ensures |t| <= |s| && t == s[|s| - |t|..]
    ensures t != [] ==> !IsSpace(t[0])
    decreases |s|
  {
    if s != [] && IsSpace(s[0]) then StripLeft(s[1..]) else s
  }

  function StripRight(s: string): (t: string)
    ensures |t| <= |s| && t == s[..|t|]
    ensures t != [] ==> !IsSpace(t[|t| - 1])
    decreases |s|
  {
    if s != [] && IsSpace(s[|s| - 1]) then StripRight(s[..|s| - 1]) else s
  }

  /** `str.strip()`: leading and trailing white space removed. */
  function Strip(s: string): (t: string)
    ensures t != [] ==> !IsSpace(t[0]) && !IsSpace(t[|t| - 1])
    ensures |t| <= |s|
  {
    StripRight(StripLeft(s))
  }

  /** An optional sign followed by one or more digits, as `int()` reads it after stripping. */
  function ParseSigned(t: string): Option<int>
  {
    if |t| >= 2 && t[0] == '-' && AllDigits(t[1..]) then Some(-(DigitsValue(t[1..]) as int))
    else if |t| >= 2 && t[0] == '+' && AllDigits(t[1..]) then Some(DigitsValue(t[1..]))
    else if |t| >= 1 && AllDigits(t) then Some(DigitsValue(t))
    else None
  }

  /**
   * `int(s)` for a string: white space around an optionally signed run of
   * digits; anything else raises, which is None here.
   */
  function ParseInt(s: string): (r: Option<int>)
    ensures r.Some? ==> exists i :: 0 <= i < |s| && IsDigit(s[i])
  {
    var t := Strip(s);
    var r := ParseSigned(t);
    if r.Some? then
      assert IsDigit(t[|t| - 1]);
      StripIndex(s, |t| - 1);
      r
    else None
  }

  /** Every character of the stripped string is a character of the original. */
  lemma StripIndex(s: string, k: nat)
    requires k < |Strip(s)|
    ensures exists i :: 0 <= i < |s| && s[i] == Strip(s)[k]
  {
    var l := StripLeft(s);
    assert Strip(s)[k] == l[k];
    assert l[k] == s[|s| - |l| + k];
  }

  /** Stripping leaves a string alone that starts and ends with non-space characters. */
  lemma StripIdentity(s: string)
    requires s != [] && !IsSpace(s[0]) && !IsSpace(s[|s| - 1])
    ensures Strip(s) == s
  {
    assert StripLeft(s) == s;
  }

  /** `int(str(n)) == n`. */
  lemma ParseIntRoundTrip(n: int)
    ensures ParseInt(IntToDecimal(n)) == Some(n)
  {
    var m: nat := if n < 0 then -n else n;
    NatDigitsRoundTrip(m);
    var d := NatDigits(m);
    ParseSignedDigits(d);
    if n < 0 {
      ParseIntUnpadded("-" + d);
    } else {
      ParseIntUnpadded(d);
    }
  }

  /** A run of digits, with or without a minus sign in front, reads as its value. */
  lemma ParseSignedDigits(d: string)
    requires |d| >= 1 && AllDigits(d)
    ensures ParseSigned(d) == Some(DigitsValue(d))
    ensures ParseSigned("-" + d) == Some(-(DigitsValue(d) as int))
  {
    assert IsDigit(d[0]);
    var m := "-" + d;
    assert m[0] == '-' && m[1..] == d;
  }

  /** Text without surrounding white space reads the same with or without stripping. */
  lemma ParseIntUnpadded(s: string)
    requires ParseSigned(s).Some? && !IsSpace(s[0]) && !IsSpace(s[|s| - 1])
    ensures ParseInt(s) == ParseSigned(s)
  {
    StripIdentity(s);
  }

  /** The parts of `s` between occurrences of `sep`: `s.split(sep)`. */
  function Split(s: string, sep: char): (parts: seq<string>)
    ensures |parts| >= 1
    ensures forall k :: 0 <= k < |parts| ==> sep !in parts[k]
    ensures Join(parts, sep) == s
    decreases |s|
  {
    if s == [] then [""]
    else
      var rest := Split(s[1..], sep);
      if s[0] == sep then
        assert ([""] + rest)[1..] == rest;
        [""] + rest
      else
        var parts := [[s[0]] + rest[0]] + rest[1..];
        assert parts[1..] == rest[1..];
        assert Join(parts, sep) == s by {
          if |rest| > 1 {
            assert Join(rest, sep) == rest[0] + [sep] + Join(rest[1..], sep);
          }
        }
        parts
  }

  /** `sep.join(parts)`. */
  function Join(parts: seq<string>, sep: char): string
    requires |parts| >= 1
    decreases |parts|
  {
    if |parts| == 1 then parts[0] else parts[0] + [sep] + Join(parts[1..], sep)
  }

  /** Splitting undoes joining when no part contains the separator. */
  lemma {:induction false} SplitJoin(parts: seq<string>, sep: char)
    requires |parts| >= 1
    requires forall k :: 0 <= k < |parts| ==> sep !in parts[k]
    ensures Split(Join(parts, sep), sep) == parts
    decreases |parts|
  {
    if |parts| == 1 {
      SplitNoSeparator(parts[0], [], sep);
    } else {
      SplitJoin(parts[1..], sep);
      SplitNoSeparator(parts[0], [sep] + Join(parts[1..], sep), sep);
      var rest := Join(parts[1..], sep);
      assert Split([sep] + rest, sep) == [""] + Split(rest, sep) by {
        assert ([sep] + rest)[1..] == rest;
      }
      assert parts[0] + [sep] + rest == parts[0] + ([sep] + rest);
      assert parts == [parts[0]] + parts[1..];
    }
  }

  /**
   * A separator-free prefix `p` becomes the front of the first part:
   * splitting `p + t` extends the first part of `t`'s split by `p`,
   * and the parts of `p + [sep] + r` are `p` followed by the parts of `r`.
   */
  lemma {:induction false} SplitNoSeparator(p: string, t: string, sep: char)
    requires sep !in p
    ensures Split(p + t, sep) == [p + Split(t, sep)[0]] + Split(t, sep)[1..]
    ensures t != [] && t[0] == sep ==> Split(p + t, sep) == [p] + Split(t[1..], sep)
    decreases |p|
  {
    var ts := Split(t, sep);
    assert ts == [ts[0]] + ts[1..];
    if p == [] {
      assert p + t == t && p + ts[0] == ts[0];
      if t != [] && t[0] == sep {
        assert ts == [""] + Split(t[1..], sep);
      }
    } else {
      SplitNoSeparator(p[1..], t, sep);
      var tail := Split(p[1..] + t, sep);
      assert (p + t)[1..] == p[1..] + t;
      assert Split(p + t, sep) == [[p[0]] + tail[0]] + tail[1..];
      assert [p[0]] + (p[1..] + ts[0]) == p + ts[0];
      assert [p[0]] + p[1..] == p;
    }
  }
}
