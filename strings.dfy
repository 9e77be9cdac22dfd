/** The JavaScript string operations the action relies on. */
module Strings {
  import opened Wrappers

  /** `pat` occurs in `s` at position `i`. */
  ghost predicate OccursAt(s: string, pat: string, i: int) {
    0 <= i && i + |pat| <= |s| && s[i..i + |pat|] == pat
  }

  /** `t` is a substring of `s`. */
  ghost predicate Contains(s: string, t: string) {
    exists i :: OccursAt(s, t, i)
  }

  /** Position of the first occurrence of `pat` in `s` at or after `from`, as `String.prototype.indexOf`. */
  function IndexOfFrom(s: string, pat: string, from: nat): (r: Option<nat>)
    requires from <= |s|
    ensures r.Some? ==> from <= r.value && OccursAt(s, pat, r.value)
    ensures r.Some? ==> forall i :: from <= i < r.value ==> !OccursAt(s, pat, i)
    ensures r.None? ==> forall i :: from <= i ==> !OccursAt(s, pat, i)
    decreases |s| - from
  {
    if from + |pat| > |s| then None
    else if s[from..from + |pat|] == pat then Some(from)
    else IndexOfFrom(s, pat, from + 1)
  }

  function IndexOf(s: string, pat: string): Option<nat>
  {
    IndexOfFrom(s, pat, 0)
  }

  /**
    `s.replace(pat, '')` with a string pattern: only the first occurrence of
    `pat` is removed; without one, `s` is returned unchanged.
   */
  function RemoveFirst(s: string, pat: string): (r: string)
    ensures (forall i :: !OccursAt(s, pat, i)) ==> r == s
    ensures forall i ::
      OccursAt(s, pat, i) && (forall i' :: 0 <= i' < i ==> !OccursAt(s, pat, i')) ==>
        r == s[..i] + s[i + |pat|..]
  {
    match IndexOf(s, pat)
    case Some(i) => s[..i] + s[i + |pat|..]
    case None => s
  }

  /** A string that starts with `pat` loses exactly that prefix. */
  lemma RemoveLeadingOccurrence(pat: string, rest: string)
    ensures RemoveFirst(pat + rest, pat) == rest
  {
    var s := pat + rest;
    assert OccursAt(s, pat, 0) by { assert s[0..|pat|] == pat; }
    assert s[|pat|..] == rest;
  }

  /** A string contains the part it ends with. */
  lemma ContainsSuffix(a: string, t: string)
    ensures Contains(a + t, t)
  {
    var s := a + t;
    assert s[|a|..|a| + |t|] == t;
    assert OccursAt(s, t, |a|);
  }

  // ---------------------------------------------------------------------------
  // Decimal rendering of numbers, as in a template literal `${n}`

  function DigitChar(d: int): (c: char)
    requires 0 <= d < 10
    ensures '0' <= c <= '9'
  {
    ('0' as int + d) as char
  }

  /** The shortest decimal numeral of `n`. */
  function Digits(n: nat): (s: string)
    ensures |s| >= 1 && forall k :: 0 <= k < |s| ==> '0' <= s[k] <= '9'
    ensures |s| > 1 ==> s[0] != '0'
  {
    if n < 10 then [DigitChar(n)] else Digits(n / 10) + [DigitChar(n % 10)]
  }

  /** JavaScript's rendering of an integer value: a minus sign for negative numbers, then the digits. */
  function DecimalString(n: int): (s: string)
    ensures n >= 0 ==> DigitsValue(s) == n
    ensures n < 0 ==> |s| >= 2 && s[0] == '-' && DigitsValue(s[1..]) == -n
    ensures var d := if n < 0 then s[1..] else s;
      && |d| >= 1
      && (forall k :: 0 <= k < |d| ==> '0' <= d[k] <= '9')
      && (|d| > 1 ==> d[0] != '0')
  {
    DigitsRoundTrip(if n < 0 then -n else n);
    assert n < 0 ==> ("-" + Digits(-n))[1..] == Digits(-n);
    if n < 0 then "-" + Digits(-n) else Digits(n)
  }

  /** The value of a string of decimal digits. */
  function DigitsValue(s: string): int
  {
    if s == [] then 0 else 10 * DigitsValue(s[..|s| - 1]) + (s[|s| - 1] as int - '0' as int)
  }

  /** Reading the rendered digits back gives the number. */
  lemma {:induction false} DigitsRoundTrip(n: nat)
    ensures DigitsValue(Digits(n)) == n
  {
    if n >= 10 {
      DigitsRoundTrip(n / 10);
      var s := Digits(n);
      assert s[..|s| - 1] == Digits(n / 10);
    }
  }

  /** Different numbers render differently. */
  lemma DecimalStringInjective(m: int, n: int)
    requires DecimalString(m) == DecimalString(n)
    ensures m == n
  {
    var dm := if m < 0 then -m else m;
    var dn := if n < 0 then -n else n;
    assert DecimalString(m)[0] == '-' <==> m < 0;
    assert DecimalString(n)[0] == '-' <==> n < 0;
    assert (m < 0) == (n < 0);
    assert Digits(dm) == Digits(dn) by {
      if m < 0 {
        assert Digits(dm) == DecimalString(m)[1..];
        assert Digits(dn) == DecimalString(n)[1..];
      }
    }
    DigitsRoundTrip(dm);
    DigitsRoundTrip(dn);
  }
}
