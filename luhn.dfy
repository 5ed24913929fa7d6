/** The modulus-10 ("Luhn") check of ISO/IEC 7812-1, Annex B, over a string
    of decimal digits: counting from the rightmost digit, every second digit
    is doubled, a doubled value of 10 or more is replaced by the sum of its two
    digits, and the number passes when the total is a multiple of 10. */
module Luhn {
  import opened Common

  function DigitValue(c: char): (d: nat)
    requires IsDigit(c)
    ensures d < 10
  {
    (c as int) - ('0' as int)
  }

  function DigitChar(d: nat): (c: char)
    requires d < 10
    ensures IsDigit(c) && DigitValue(c) == d
  {
    (('0' as int) + d) as char
  }

  /** What one digit adds to the total: itself, or, in a doubled position,
      the sum of the decimal digits of its double. */
  function Contribution(d: nat, doubled: bool): (v: nat)
    requires d < 10
    ensures v < 10
    ensures !doubled ==> v == d
    ensures doubled ==> v == (2 * d) / 10 + (2 * d) % 10
  {
    if !doubled then d else if 2 * d >= 10 then 2 * d - 9 else 2 * d
  }

  /** The Luhn total of `s`, read from the right; `doubleLast` says whether
      the rightmost digit sits in a doubled position. */
  function LuhnSum(s: string, doubleLast: bool): nat
    requires AllDigits(s)
    decreases |s|
  {
    if s == [] then 0
    else Contribution(DigitValue(s[|s| - 1]), doubleLast) + LuhnSum(s[..|s| - 1], !doubleLast)
  }

  /** A non-empty digit string passes when its total, with the rightmost
      digit undoubled, is a multiple of 10. Empty input and input holding a
      non-digit fail. Equivalently, the rightmost digit is the complement of
      the rest's total, taken with the rest's last digit doubled. */
  predicate PassesLuhn(s: string)
    ensures PassesLuhn(s) <==>
              && |s| > 0 && AllDigits(s)
              && DigitValue(s[|s| - 1]) == (10 - LuhnSum(s[..|s| - 1], true) % 10) % 10
  {
    if |s| > 0 && AllDigits(s) then
      Complement(DigitValue(s[|s| - 1]), LuhnSum(s[..|s| - 1], true));
      LuhnSum(s, false) % 10 == 0
    else
      false
  }

  /** The check digit that completes `payload` (Annex B's computation: the
      payload's digits are weighted as if the check digit were already
      appended to their right). */
  function CheckDigit(payload: string): (c: char)
    requires AllDigits(payload)
    ensures IsDigit(c) && PassesLuhn(payload + [c])
  {
    var c := DigitChar((10 - LuhnSum(payload, true) % 10) % 10);
    assert (payload + [c])[..|payload|] == payload;
    Complement(DigitValue(c), LuhnSum(payload, true));
    c
  }

  /** A digit `x` brings `total` to a multiple of 10 exactly when it is the
      complement of the total's last decimal digit. */
  lemma Complement(x: nat, total: nat)
    requires x < 10
    ensures (x + total) % 10 == 0 <==> x == (10 - total % 10) % 10
  {
    var q, r := total / 10, total % 10;
    assert x + total == 10 * q + (x + r);
    if x + r < 10 {
      assert (x + total) % 10 == x + r;
    } else {
      assert x + total == 10 * (q + 1) + (x + r - 10);
      assert (x + total) % 10 == x + r - 10;
    }
  }

  /** Appending one digit to a payload passes the check exactly when that
      digit is the payload's check digit. */
  lemma CheckDigitUnique(payload: string, c: char)
    requires AllDigits(payload) && IsDigit(c)
    ensures PassesLuhn(payload + [c]) <==> c == CheckDigit(payload)
  {
    var s := payload + [c];
    assert s[..|payload|] == payload;
    assert s[|s| - 1] == c;
    assert LuhnSum(s, false) == DigitValue(c) + LuhnSum(payload, true);
    Complement(DigitValue(c), LuhnSum(payload, true));
    var d := CheckDigit(payload);
    assert DigitValue(d) == (10 - LuhnSum(payload, true) % 10) % 10;
    assert c == DigitChar(DigitValue(c));
  }

  /** The total of a concatenation: the right part keeps its parity, the
      left part is shifted by the length of the right part. */
  lemma {:induction false} LuhnSumAppend(a: string, b: string, doubleLast: bool)
    requires AllDigits(a) && AllDigits(b)
    ensures AllDigits(a + b)
    ensures LuhnSum(a + b, doubleLast)
         == LuhnSum(b, doubleLast) + LuhnSum(a, if |b| % 2 == 0 then doubleLast else !doubleLast)
    decreases |b|
  {
    var s := a + b;
    assert AllDigits(s) by {
      forall k | 0 <= k < |s| ensures IsDigit(s[k]) {
        if k < |a| { assert s[k] == a[k]; } else { assert s[k] == b[k - |a|]; }
      }
    }
    if b == [] {
      assert s == a;
    } else {
      var b' := b[..|b| - 1];
      assert s[|s| - 1] == b[|b| - 1];
      assert s[..|s| - 1] == a + b';
      LuhnSumAppend(a, b', !doubleLast);
    }
  }

  /** Different digit characters have different values. */
  lemma DigitValueInjective(c: char, d: char)
    requires IsDigit(c) && IsDigit(d) && c != d
    ensures DigitValue(c) != DigitValue(d)
  {
  }

  /** Doubling is one-to-one on digits, so the contribution of a digit
      determines the digit in both kinds of position. */
  lemma ContributionInjective(x: nat, y: nat, doubled: bool)
    requires x < 10 && y < 10 && x != y
    ensures Contribution(x, doubled) != Contribution(y, doubled)
  {
  }

  /** The total of `s` split around position `i`: the digits right of `i`,
      the digit at `i` in its own position, and the digits left of `i`. */
  lemma LuhnSumAround(s: string, i: nat)
    requires AllDigits(s) && i < |s|
    ensures AllDigits(s[..i]) && AllDigits(s[i + 1..])
    ensures LuhnSum(s, false)
         == LuhnSum(s[i + 1..], false)
          + Contribution(DigitValue(s[i]), (|s| - 1 - i) % 2 != 0)
          + LuhnSum(s[..i], (|s| - 1 - i) % 2 == 0)
  {
    var left, right := s[..i], s[i + 1..];
    var q := (|s| - 1 - i) % 2 != 0;
    assert AllDigits(left + [s[i]]) by {
      forall k | 0 <= k <= i ensures IsDigit((left + [s[i]])[k]) {
        assert (left + [s[i]])[k] == s[k];
      }
    }
    assert AllDigits(right) by {
      forall k | 0 <= k < |right| ensures IsDigit(right[k]) {
        assert right[k] == s[i + 1 + k];
      }
    }
    assert s == (left + [s[i]]) + right;
    LuhnSumAppend(left + [s[i]], right, false);
    assert (left + [s[i]])[..i] == left;
  }

  /** Changing exactly one digit of a string whose total is a multiple of
      10 gives a total that is not. */
  lemma SingleDigitChangesTotal(s: string, t: string, i: nat)
    requires AllDigits(s) && AllDigits(t) && |t| == |s|
    requires i < |s| && s[i] != t[i]
    requires forall k :: 0 <= k < |s| && k != i ==> s[k] == t[k]
    ensures LuhnSum(s, false) % 10 == 0 ==> LuhnSum(t, false) % 10 != 0
  {
    assert t[..i] == s[..i];
    assert t[i + 1..] == s[i + 1..];
    LuhnSumAround(s, i);
    LuhnSumAround(t, i);
    var q := (|s| - 1 - i) % 2 != 0;
    var common := LuhnSum(s[i + 1..], false) + LuhnSum(s[..i], !q);
    var cs := Contribution(DigitValue(s[i]), q);
    var ct := Contribution(DigitValue(t[i]), q);
    assert (|t| - 1 - i) % 2 != 0 <==> q;
    assert LuhnSum(t[i + 1..], false) + LuhnSum(t[..i], !q) == common;
    assert LuhnSum(s, false) == common + cs;
    assert LuhnSum(t, false) == common + ct;
    DigitValueInjective(s[i], t[i]);
    ContributionInjective(DigitValue(s[i]), DigitValue(t[i]), q);
    DistinctLastDigits(LuhnSum(s, false), LuhnSum(t, false), common, cs, ct);
  }

  /** Two different digits added to the same total cannot both give a
      multiple of 10. */
  lemma DistinctLastDigits(a: nat, b: nat, total: nat, x: nat, y: nat)
    requires x < 10 && y < 10 && x != y
    requires a == total + x && b == total + y
    ensures a % 10 == 0 ==> b % 10 != 0
  {
    Complement(x, total);
    Complement(y, total);
  }

  /** Changing exactly one digit of a passing number always makes it fail:
      the check detects every single-digit transcription error. */
  lemma SingleDigitErrorDetected(s: string, t: string, i: nat)
    requires PassesLuhn(s) && AllDigits(t) && |t| == |s|
    requires i < |s| && s[i] != t[i]
    requires forall k :: 0 <= k < |s| && k != i ==> s[k] == t[k]
    ensures !PassesLuhn(t)
  {
    SingleDigitChangesTotal(s, t, i);
  }
}
