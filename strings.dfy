/**
 * Character and string helpers shared by the background fetcher and the page
 * agent: substring search (`String.prototype.includes`), scanning forward to
 * the next occurrence of a character, and decimal digits (`parseInt` of a
 * digit run, `Number.prototype.toString` of a non-negative integer).
 */
module Strings {

  /** ASCII decimal digit, the class `\d` of a JavaScript regular expression. */
  predicate IsDigit(c: char) {
    '0' <= c <= '9'
  }

  predicate AllDigits(s: string) {
    forall j :: 0 <= j < |s| ==> IsDigit(s[j])
  }

  predicate HasDigit(s: string) {
    exists j :: 0 <= j < |s| && IsDigit(s[j])
  }

  /** `s` holds no occurrence of `c`. */
  predicate Excludes(s: string, c: char) {
    forall j :: 0 <= j < |s| ==> s[j] != c
  }

  /** `pat` occurs in `s` starting at index `k`. */
  predicate OccursAt(s: string, pat: string, k: int) {
    0 <= k && k + |pat| <= |s| && s[k..k + |pat|] == pat
  }

  /** `pat` occurs somewhere in `s`. */
  ghost predicate Occurs(pat: string, s: string) {
    exists k :: OccursAt(s, pat, k)
  }

  /** Tries every start position from `from` on. */
  function ContainsFrom(s: string, pat: string, from: nat): (b: bool)
    decreases |s| + 1 - from
    ensures b <==> exists k :: from <= k && OccursAt(s, pat, k)
  {
    if from + |pat| > |s| then false
    else OccursAt(s, pat, from) || ContainsFrom(s, pat, from + 1)
  }

  /** `s.includes(pat)`. */
  function Contains(s: string, pat: string): (b: bool)
    ensures b <==> Occurs(pat, s)
  {
    ContainsFrom(s, pat, 0)
  }

  /** The index of the first `c` at or after `from`, or `|s|` when there is none. */
  function NextIndex(s: string, c: char, from: nat): (k: nat)
    requires from <= |s|
    decreases |s| - from
    ensures from <= k <= |s|
    ensures k < |s| ==> s[k] == c
    ensures forall j :: from <= j < k ==> s[j] != c
  {
    if from == |s| || s[from] == c then from else NextIndex(s, c, from + 1)
  }

  /** The index of the first digit at or after `from`, or `|s|` when there is none. */
  function NextDigit(s: string, from: nat): (k: nat)
    requires from <= |s|
    decreases |s| - from
    ensures from <= k <= |s|
    ensures k < |s| ==> IsDigit(s[k])
    ensures forall j :: from <= j < k ==> !IsDigit(s[j])
  {
    if from == |s| || IsDigit(s[from]) then from else NextDigit(s, from + 1)
  }

  /** The end of the run of digits that starts at `from`. */
  function DigitRunEnd(s: string, from: nat): (k: nat)
    requires from <= |s|
    decreases |s| - from
    ensures from <= k <= |s|
    ensures k < |s| ==> !IsDigit(s[k])
    ensures forall j :: from <= j < k ==> IsDigit(s[j])
  {
    if from == |s| || !IsDigit(s[from]) then from else DigitRunEnd(s, from + 1)
  }

  function DigitValue(c: char): nat
    requires IsDigit(c)
  {
    c as int - '0' as int
  }

  function DigitChar(d: nat): (c: char)
    requires d < 10
    ensures IsDigit(c) && DigitValue(c) == d
  {
    ('0' as int + d) as char
  }

  /** The number a run of decimal digits denotes, most significant digit first. */
  function DecimalValue(s: string): nat
    requires AllDigits(s)
  {
    if s == [] then 0
    else DecimalValue(s[..|s| - 1]) * 10 + DigitValue(s[|s| - 1])
  }

  /** Appending digit `d` to `a` and splitting it off again. */
  lemma ShiftDigit(a: nat, d: nat)
    requires d < 10
    ensures (a * 10 + d) / 10 == a && (a * 10 + d) % 10 == d
    ensures a > 0 ==> a * 10 + d >= 10
  {
  }

  /** Decimal notation of a non-negative integer, without leading zeros. */
  function NatToString(n: nat): (s: string)
    ensures AllDigits(s) && |s| >= 1
    ensures s == "0" || s[0] != '0'
    ensures n > 0 ==> s[0] != '0'
  {
    if n < 10 then [DigitChar(n)] else NatToString(n / 10) + [DigitChar(n % 10)]
  }

  /** Reading back the decimal notation of `n` gives `n`. */
  lemma {:induction false} DecimalValueOfNatToString(n: nat)
    ensures DecimalValue(NatToString(n)) == n
  {
    var s := NatToString(n);
    if n < 10 {
      assert s[..|s| - 1] == [];
    } else {
      var p := NatToString(n / 10);
      assert s == p + [DigitChar(n % 10)];
      assert s[..|s| - 1] == p;
      DecimalValueOfNatToString(n / 10);
    }
  }

  /** A digit run without a leading zero is the decimal notation of its value. */
  lemma {:induction false} NatToStringOfDecimalValue(s: string)
    requires AllDigits(s) && |s| > 0 && (s == "0" || s[0] != '0')
    ensures NatToString(DecimalValue(s)) == s
  {
    var p, d := s[..|s| - 1], DigitValue(s[|s| - 1]);
    var a := DecimalValue(p);
    ShiftDigit(a, d);
    assert DigitChar(d) == s[|s| - 1];
    if p == [] {
      assert s == [DigitChar(d)];
    } else {
      assert s == p + [DigitChar(d)];
      assert p[0] == s[0];
      NatToStringOfDecimalValue(p);
      assert a != 0;
    }
  }
}
