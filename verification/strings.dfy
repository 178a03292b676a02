/** Text helpers the converter relies on: ASCII lower-casing (Python's
    `str.lower` on column headers), substring search (Python's `in` on
    strings) and the decimal rendering of a row number (`f"{idx+1}"`). */
module Strings {

  predicate IsUpper(c: char) { 'A' <= c <= 'Z' }

  function LowerChar(c: char): char
  {
    if IsUpper(c) then (c as int + 32) as char else c
  }

  /** The lower-case form of a header, character by character. */
  function Lower(s: string): (r: string)
    ensures |r| == |s|
    ensures forall i :: 0 <= i < |s| ==> r[i] == LowerChar(s[i])
    ensures forall i :: 0 <= i < |r| ==> !IsUpper(r[i])
  {
    if s == [] then [] else [LowerChar(s[0])] + Lower(s[1..])
  }

  /** Lower-casing an already lower-cased header changes nothing. */
  lemma LowerIdempotent(s: string)
    ensures Lower(Lower(s)) == Lower(s)
  {
    var l := Lower(s);
    assert forall i :: 0 <= i < |l| ==> Lower(l)[i] == l[i];
  }

  /** `t in s` for two Python strings: `t` occurs somewhere in `s`. */
  function Contains(s: string, t: string): bool
    decreases |s|
  {
    |t| <= |s| && (s[..|t|] == t || Contains(s[1..], t))
  }

  /** `t` occurs in `s` starting at position `i`. */
  predicate OccursAt(s: string, t: string, i: int)
  {
    0 <= i && i + |t| <= |s| && s[i..i + |t|] == t
  }

  /** Every hit of the recursive search is an occurrence. */
  lemma {:induction false} ContainsSound(s: string, t: string)
    requires Contains(s, t)
    ensures exists i :: OccursAt(s, t, i)
    decreases |s|
  {
    if s[..|t|] == t {
      assert OccursAt(s, t, 0);
    } else {
      ContainsSound(s[1..], t);
      var i :| OccursAt(s[1..], t, i);
      assert s[i + 1..i + 1 + |t|] == s[1..][i..i + |t|];
      assert OccursAt(s, t, i + 1);
    }
  }

  /** The recursive search finds every occurrence. */
  lemma {:induction false} ContainsComplete(s: string, t: string, i: int)
    requires OccursAt(s, t, i)
    ensures Contains(s, t)
    decreases i
  {
    if i > 0 {
      assert s[1..][i - 1..i - 1 + |t|] == s[i..i + |t|];
      ContainsComplete(s[1..], t, i - 1);
    } else {
      assert s[..|t|] == s[i..i + |t|];
    }
  }

  /** The recursive search agrees with the definition of an occurrence. */
  lemma ContainsIff(s: string, t: string)
    ensures Contains(s, t) <==> exists i :: OccursAt(s, t, i)
  {
    if Contains(s, t) {
      ContainsSound(s, t);
    }
    forall i | OccursAt(s, t, i) ensures Contains(s, t) {
      ContainsComplete(s, t, i);
    }
  }

  /** A string contains each of its prefixes. */
  lemma ContainsPrefix(s: string, t: string)
    requires t <= s
    ensures Contains(s, t)
  {
    assert s[..|t|] == t;
  }

  function Digit(d: nat): (c: char)
    requires d < 10
    ensures '0' <= c <= '9'
  {
    ('0' as int + d) as char
  }

  /** The decimal digits of `n`, most significant first, as `str(n)` gives them. */
  function DecimalString(n: nat): (s: string)
    ensures |s| > 0
    ensures forall i :: 0 <= i < |s| ==> '0' <= s[i] <= '9'
  {
    if n < 10 then [Digit(n)] else DecimalString(n / 10) + [Digit(n % 10)]
  }

  /** The number a string of decimal digits denotes. */
  function DigitsValue(s: string): nat
    requires forall i :: 0 <= i < |s| ==> '0' <= s[i] <= '9'
  {
    if s == [] then 0
    else DigitsValue(s[..|s| - 1]) * 10 + (s[|s| - 1] as int - '0' as int)
  }

  /** Reading back the decimal rendering of `n` gives `n`. */
  lemma {:induction false} DecimalRoundTrip(n: nat)
    ensures DigitsValue(DecimalString(n)) == n
  {
    var s := DecimalString(n);
    if n >= 10 {
      DecimalRoundTrip(n / 10);
      assert s[..|s| - 1] == DecimalString(n / 10);
    }
  }

  /** Different numbers have different decimal renderings. */
  lemma DecimalStringInjective(a: nat, b: nat)
    requires DecimalString(a) == DecimalString(b)
    ensures a == b
  {
    DecimalRoundTrip(a);
    DecimalRoundTrip(b);
  }
}
