/**
 * ASCII decimal digit strings: the `\d` runs the date-time pattern matches, Python's `int()`
 * of such a run, and the zero-padded `%0Nd` formatting that `isoformat` writes.
 */
module Decimal {

  predicate IsDigit(c: char) {
    '0' <= c <= '9'
  }

  predicate AllDigits(s: string) {
    forall i :: 0 <= i < |s| ==> IsDigit(s[i])
  }

  /** Every character of `s` from position `i` up to `j` is a digit. */
  predicate DigitsIn(s: string, i: nat, j: nat)
    requires i <= j <= |s|
  {
    forall k :: i <= k < j ==> IsDigit(s[k])
  }

  /** Length of the run of digits starting at position `i` of `s`: what a greedy `\d+` consumes. */
  function DigitRun(s: string, i: nat): (n: nat)
    requires i <= |s|
    ensures i + n <= |s|
    ensures i + n < |s| ==> !IsDigit(s[i + n])
    decreases |s| - i
  {
    if i == |s| || !IsDigit(s[i]) then 0 else 1 + DigitRun(s, i + 1)
  }

  /** Everything the digit run covers is a digit. */
  lemma {:induction false} DigitRunDigits(s: string, i: nat)
    requires i <= |s|
    ensures DigitsIn(s, i, i + DigitRun(s, i))
    decreases |s| - i
  {
    if i < |s| && IsDigit(s[i]) {
      DigitRunDigits(s, i + 1);
    }
  }

  /** The digit run is the only run of digits at `i` that is followed by a non-digit or the end. */
  lemma {:induction false} DigitRunUnique(s: string, i: nat, n: nat)
    requires i + n <= |s| && DigitsIn(s, i, i + n)
    requires i + n < |s| ==> !IsDigit(s[i + n])
    ensures DigitRun(s, i) == n
    decreases n
  {
    if n > 0 {
      DigitRunUnique(s, i + 1, n - 1);
    }
  }

  /** Any run of digits at `i` is covered by the digit run there. */
  lemma {:induction false} DigitRunCovers(s: string, i: nat, n: nat)
    requires i + n <= |s| && DigitsIn(s, i, i + n)
    ensures n <= DigitRun(s, i)
    decreases n
  {
    if n > 0 {
      DigitRunCovers(s, i + 1, n - 1);
    }
  }

  /** The digits between two positions form a digit string. */
  lemma DigitsInSlice(s: string, i: nat, j: nat)
    requires i <= j <= |s| && DigitsIn(s, i, j)
    ensures AllDigits(s[i..j])
  {
    forall k | 0 <= k < j - i ensures IsDigit(s[i..j][k]) {
      assert s[i..j][k] == s[i + k];
    }
  }

  function DigitValue(c: char): (v: nat)
    requires IsDigit(c)
    ensures v < 10
  {
    (c as int) - ('0' as int)
  }

  function DigitChar(v: nat): (c: char)
    requires v < 10
    ensures IsDigit(c) && DigitValue(c) == v
  {
    (('0' as int) + v) as char
  }

  /** Python's `int(s)` for a non-empty or empty string of ASCII digits (leading zeros allowed). */
  function ToNat(s: string): (n: nat)
    requires AllDigits(s)
    ensures n < Pow10(|s|)
  {
    if s == [] then 0 else 10 * ToNat(s[..|s| - 1]) + DigitValue(s[|s| - 1])
  }

  /** Two digits read as a number below 100. */
  lemma ToNatPair(s: string)
    requires |s| == 2 && AllDigits(s)
    ensures ToNat(s) == 10 * DigitValue(s[0]) + DigitValue(s[1])
  {
    var t := s[..1];
    assert t[..|t| - 1] == [];
    assert ToNat(t) == DigitValue(s[0]);
  }

  /** Leading zeros do not change the value `int()` reads. */
  lemma {:induction false} ToNatLeadingZero(s: string)
    requires AllDigits(s)
    ensures AllDigits("0" + s) && ToNat("0" + s) == ToNat(s)
  {
    assert AllDigits("0" + s) by {
      forall i | 0 <= i < |"0" + s| ensures IsDigit(("0" + s)[i]) {
        if i > 0 { assert ("0" + s)[i] == s[i - 1]; }
      }
    }
    if s != [] {
      var t := s[..|s| - 1];
      assert ("0" + s)[..|"0" + s| - 1] == "0" + t;
      ToNatLeadingZero(t);
    }
  }

  function Pow10(w: nat): (p: nat)
    ensures p >= 1
  {
    if w == 0 then 1 else 10 * Pow10(w - 1)
  }

  /** `"%0{w}d" % n` for a number that fits in `w` digits, and `int()` reads `n` back from it. */
  function Pad(n: nat, w: nat): (s: string)
    requires n < Pow10(w)
    ensures |s| == w && AllDigits(s) && ToNat(s) == n
  {
    if w == 0 then ""
    else
      var init := Pad(n / 10, w - 1);
      var s := init + [DigitChar(n % 10)];
      assert s[..|s| - 1] == init;
      s
  }
}
