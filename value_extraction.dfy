/**
 * The value column's text-to-number path: the leftmost match of the
 * regular expression `\d+\.\d` (what `Series.str.extract` keeps) and the
 * conversion of that text to a number. A number with one decimal digit is
 * held as an integer count of tenths: `82.4` is 824.
 */
module ValueExtraction {
  import opened Wrappers
  import opened Strings

  /** `t` is, in full, a match of `\d+\.\d`: one or more digits, a point, one digit. */
  predicate IsTenthsLiteral(t: string)
  {
    |t| >= 3 && AllDigits(t[..|t| - 2]) && t[|t| - 2] == '.' && IsDigit(t[|t| - 1])
  }

  /** The number of tenths a literal such as `82.4` denotes. */
  function TenthsValue(t: string): nat
    requires IsTenthsLiteral(t)
  {
    DigitsValue(t[..|t| - 2]) * 10 + DigitValue(t[|t| - 1])
  }

  /** The literal `str(v / 10)` prints for a count of tenths `v`, e.g. 824 as `82.4`. */
  function TenthsLiteral(v: nat): string
  {
    NatDigits(v / 10) + "." + [DigitChar(v % 10)]
  }

  lemma TenthsLiteralRoundTrip(v: nat)
    ensures IsTenthsLiteral(TenthsLiteral(v))
    ensures TenthsValue(TenthsLiteral(v)) == v
  {
    NatDigitsRoundTrip(v / 10);
    var t := TenthsLiteral(v);
    assert t[..|t| - 2] == NatDigits(v / 10);
  }

  /** `s[p..q]` is an occurrence of the pattern. */
  predicate MatchAt(s: string, p: int, q: int)
  {
    0 <= p <= q <= |s| && IsTenthsLiteral(s[p..q])
  }

  /** The end of the run of digits that starts at `i`. */
  function DigitRunEnd(s: string, i: nat): (e: nat)
    requires i <= |s|
    ensures i <= e <= |s|
    ensures forall k :: i <= k < e ==> IsDigit(s[k])
    ensures e < |s| ==> !IsDigit(s[e])
    decreases |s| - i
  {
    if i < |s| && IsDigit(s[i]) then DigitRunEnd(s, i + 1) else i
  }

  /**
   * An occurrence that starts at `p` ends two characters after the run of
   * digits from `p`: at each start there is at most one occurrence, so the
   * greedy `\d+` and any other reading of the pattern find the same text.
   */
  lemma MatchEndIsDetermined(s: string, p: nat, q: nat)
    requires MatchAt(s, p, q)
    ensures q == DigitRunEnd(s, p) + 2
  {
    var t := s[p..q];
    var e := DigitRunEnd(s, p);
    assert forall k :: p <= k < q - 2 ==> IsDigit(s[k]) by {
      forall k | p <= k < q - 2 ensures IsDigit(s[k]) {
        assert s[k] == t[..|t| - 2][k - p];
      }
    }
    assert s[q - 2] == t[|t| - 2] == '.';
  }

  /** The end of the occurrence that starts at `p`, if there is one. */
  function MatchFrom(s: string, p: nat): (r: Option<nat>)
    requires p <= |s|
    ensures r.Some? ==> MatchAt(s, p, r.value)
    ensures r.None? ==> forall q :: !MatchAt(s, p, q)
  {
    var e := DigitRunEnd(s, p);
    if e > p && e + 1 < |s| && s[e] == '.' && IsDigit(s[e + 1]) then
      var t := s[p..e + 2];
      assert t[..|t| - 2] == s[p..e];
      assert AllDigits(s[p..e]) by {
        forall k | 0 <= k < e - p ensures IsDigit(s[p..e][k]) {
          assert s[p..e][k] == s[p + k];
        }
      }
      Some(e + 2)
    else
      assert forall q :: !MatchAt(s, p, q) by {
        forall q | MatchAt(s, p, q) ensures false {
          MatchEndIsDetermined(s, p, q);
        }
      }
      None
  }

  /** The leftmost occurrence starting at or after `from`, as a pair of bounds. */
  function FindMatch(s: string, from: nat): (r: Option<(nat, nat)>)
    requires from <= |s|
    ensures r.Some? ==> from <= r.value.0 && MatchAt(s, r.value.0, r.value.1)
    ensures r.Some? ==> forall p, q :: from <= p < r.value.0 ==> !MatchAt(s, p, q)
    ensures r.None? ==> forall p, q :: from <= p ==> !MatchAt(s, p, q)
    decreases |s| - from
  {
    if from == |s| then None
    else
      match MatchFrom(s, from)
      case Some(q) => Some((from, q))
      case None => FindMatch(s, from + 1)
  }

  /**
   * `Series.str.extract(r"(\d+\.\d)")` on one cell: the text of the leftmost
   * occurrence, or null when the pattern occurs nowhere.
   */
  function Extract(s: string): (r: Option<string>)
    ensures r.None? <==> forall p, q :: !MatchAt(s, p, q)
    ensures r.Some? ==> IsTenthsLiteral(r.value)
    ensures r.Some? ==> exists p, q :: MatchAt(s, p, q) && s[p..q] == r.value
                                         && forall p', q' :: 0 <= p' < p ==> !MatchAt(s, p', q')
  {
    match FindMatch(s, 0)
    case Some((p, q)) => Some(s[p..q])
    case None => None
  }

  /**
   * A well-formed value followed by anything at all extracts to that value:
   * the annotation in `82.4 e` and the second decimal of `82.45` are discarded.
   */
  lemma {:induction false} ExtractDiscardsSuffix(v: nat, rest: string)
    ensures Extract(TenthsLiteral(v) + rest) == Some(TenthsLiteral(v))
  {
    var lit := TenthsLiteral(v);
    var s := lit + rest;
    TenthsLiteralRoundTrip(v);
    assert s[0..|lit|] == lit;
    assert MatchAt(s, 0, |lit|);
    assert MatchFrom(s, 0) == Some(|lit|) by {
      MatchEndIsDetermined(s, 0, |lit|);
    }
  }

  /** Text without a decimal point never yields a value. */
  lemma NoPointNoValue(s: string)
    requires '.' !in s
    ensures Extract(s) == None
  {
  }

  /** 824 tenths print as `82.4`. */
  lemma TenthsLiteralExample()
    ensures TenthsLiteral(824) == "82.4"
  {
    assert NatDigits(82) == "82";
  }

  /** A trailing annotation is discarded: `82.4 e` gives `82.4`. */
  lemma ExtractAnnotatedExample()
    ensures Extract("82.4 e") == Some("82.4")
  {
    TenthsLiteralExample();
    ExtractDiscardsSuffix(824, " e");
    assert TenthsLiteral(824) + " e" == "82.4 e";
  }

  /**
   * Text before the value is skipped and only one decimal digit is kept:
   * `b 82.45` gives `82.4`.
   */
  lemma ExtractLeadingTextExample()
    ensures Extract("b 82.45") == Some("82.4")
  {
    var s := "b 82.45";
    assert DigitRunEnd(s, 0) == 0;
    assert MatchFrom(s, 0).None?;
    assert DigitRunEnd(s, 1) == 1;
    assert MatchFrom(s, 1).None?;
    assert DigitRunEnd(s, 4) == 4;
    assert DigitRunEnd(s, 2) == 4;
    assert MatchFrom(s, 2) == Some(6);
    assert FindMatch(s, 0) == Some((2, 6));
    assert s[2..6] == "82.4";
  }

  /** An integer and the missing-value mark `:` give null. */
  lemma ExtractNullExamples()
    ensures Extract("82") == None
    ensures Extract(":") == None
  {
    NoPointNoValue("82");
    NoPointNoValue(":");
  }

  /**
   * `float(s)` for the spellings this model covers: white space around an
   * optionally signed integer or an optionally signed `\d+\.\d` literal,
   * as a count of tenths. Anything else raises, which is None here.
   */
  function ParseFloatTenths(s: string): (r: Option<int>)
    ensures IsTenthsLiteral(s) ==> r == Some(TenthsValue(s) as int)
  {
    var t := Strip(s);
    if IsTenthsLiteral(s) then
      StripIdentity(s);
      UnsignedTenths(t)
    else if |t| >= 1 && t[0] == '-' then
      var m := UnsignedTenths(t[1..]);
      if m.None? then None else Some(-m.value)
    else if |t| >= 1 && t[0] == '+' then UnsignedTenths(t[1..])
    else UnsignedTenths(t)
  }

  /** An unsigned integer or `\d+\.\d` literal, in tenths. */
  function UnsignedTenths(t: string): (r: Option<int>)
    ensures IsTenthsLiteral(t) ==> r == Some(TenthsValue(t) as int)
  {
    if |t| >= 1 && AllDigits(t) then Some(DigitsValue(t) * 10)
    else if IsTenthsLiteral(t) then Some(TenthsValue(t) as int)
    else None
  }

  /** `float("82.4")` is 82.4, that is 824 tenths. */
  lemma ParseFloatExample()
    ensures ParseFloatTenths("82.4") == Some(824)
  {
    assert IsTenthsLiteral("82.4");
    assert "82.4"[..2] == "82";
    assert DigitsValue("82") == 82;
  }
}
