// Decimal text of integers, as JavaScript produces and reads it:
// Number.prototype.toString(), String.prototype.padStart with '0',
// parseInt(s, 10) on a string of digits, and the fixed-width fields
// that Date.prototype.toISOString writes.

module Digits {

  predicate IsDigit(c: char) { '0' <= c <= '9' }

  predicate AllDigits(s: string) { forall i :: 0 <= i < |s| ==> IsDigit(s[i]) }

  function DigitChar(n: nat): (c: char)
    requires n < 10
    ensures IsDigit(c) && DigitValue(c) == n
  {
    ('0' as int + n) as char
  }

  function DigitValue(c: char): nat
    requires IsDigit(c)
  {
    c as int - '0' as int
  }

  function Pow10(k: nat): (p: nat)
    ensures p >= 1
  {
    if k == 0 then 1 else 10 * Pow10(k - 1)
  }

  /** `n.toString()` for a non-negative integer: the shortest decimal numeral. */
  function NatToString(n: nat): (s: string)
    ensures 1 <= |s| && AllDigits(s)
    ensures |s| > 1 ==> s[0] != '0'
  {
    if n < 10 then [DigitChar(n)] else NatToString(n / 10) + [DigitChar(n % 10)]
  }

  /** `String(i)` for any integer: a minus sign before the numeral of |i| when i < 0. */
  function IntToString(i: int): (s: string)
    ensures i >= 0 ==> s == NatToString(i)
    ensures i < 0 ==> s == "-" + NatToString(-i)
  {
    if i < 0 then "-" + NatToString(-i) else NatToString(i)
  }

  /** `parseInt(s, 10)` on a string made only of digits. The callers pass only
      non-empty fields; the empty string, where `parseInt` gives NaN, reads as 0. */
  function ParseDigits(s: string): nat
    requires AllDigits(s)
  {
    if s == [] then 0 else 10 * ParseDigits(s[..|s| - 1]) + DigitValue(s[|s| - 1])
  }

  /** k copies of c. */
  function Repeat(c: char, k: nat): (r: string)
    ensures |r| == k && forall i :: 0 <= i < k ==> r[i] == c
  {
    if k == 0 then [] else [c] + Repeat(c, k - 1)
  }

  /** `s.padStart(width, fill)` with a one-character fill. */
  function PadStart(s: string, width: nat, fill: char): (r: string)
    ensures |s| >= width ==> r == s
    ensures |s| < width ==> |r| == width && r[width - |s|..] == s
    ensures forall i :: 0 <= i < |r| - |s| ==> r[i] == fill
  {
    if |s| >= width then s else Repeat(fill, width - |s|) + s
  }

  /** The last `width` decimal digits of n, zero-filled: a field of toISOString. */
  function FixedDigits(n: nat, width: nat): (s: string)
    ensures |s| == width && AllDigits(s)
  {
    if width == 0 then [] else FixedDigits(n / 10, width - 1) + [DigitChar(n % 10)]
  }

  // ---------------------------------------------------------------------------
  // Round trips

  lemma {:induction false} ParseNatToString(n: nat)
    ensures ParseDigits(NatToString(n)) == n
  {
    if n >= 10 {
      var s := NatToString(n);
      assert s[..|s| - 1] == NatToString(n / 10);
      ParseNatToString(n / 10);
    }
  }

  /** A numeral of k digits reads back below 10^k. */
  lemma {:induction false} ParseDigitsBound(s: string)
    requires AllDigits(s)
    ensures ParseDigits(s) < Pow10(|s|)
  {
    if s != [] { ParseDigitsBound(s[..|s| - 1]); }
  }

  lemma {:induction false} ParseLeadingZero(s: string)
    requires AllDigits(s)
    ensures AllDigits(['0'] + s) && ParseDigits(['0'] + s) == ParseDigits(s)
  {
    var z := ['0'] + s;
    if s != [] {
      assert z[..|z| - 1] == ['0'] + s[..|s| - 1];
      ParseLeadingZero(s[..|s| - 1]);
    } else {
      assert z[..|z| - 1] == [];
    }
  }

  lemma {:induction false} ParseLeadingZeros(k: nat, s: string)
    requires AllDigits(s)
    ensures AllDigits(Repeat('0', k) + s)
    ensures ParseDigits(Repeat('0', k) + s) == ParseDigits(s)
  {
    if k > 0 {
      ParseLeadingZeros(k - 1, s);
      var rest := Repeat('0', k - 1) + s;
      assert Repeat('0', k) == ['0'] + Repeat('0', k - 1);
      assert Repeat('0', k) + s == ['0'] + rest;
      ParseLeadingZero(rest);
    } else {
      assert Repeat('0', k) + s == s;
    }
  }

  /** Zero padding does not change the value parseInt reads back. */
  lemma ParsePadded(n: nat, width: nat)
    ensures AllDigits(PadStart(NatToString(n), width, '0'))
    ensures ParseDigits(PadStart(NatToString(n), width, '0')) == n
  {
    var s := NatToString(n);
    ParseNatToString(n);
    if |s| < width {
      ParseLeadingZeros(width - |s|, s);
    }
  }

  lemma {:induction false} ParseFixedDigits(n: nat, width: nat)
    requires n < Pow10(width)
    ensures ParseDigits(FixedDigits(n, width)) == n
  {
    if width > 0 {
      var s := FixedDigits(n, width);
      var init := FixedDigits(n / 10, width - 1);
      assert s == init + [DigitChar(n % 10)];
      assert s[..|s| - 1] == init;
      DivTenBelow(n, Pow10(width - 1));
      ParseFixedDigits(n / 10, width - 1);
      assert ParseDigits(s) == 10 * (n / 10) + n % 10;
    }
  }

  lemma DivTenBelow(n: nat, p: nat)
    requires n < 10 * p
    ensures n / 10 < p
  {
  }

  /** For a number that fits, padStart(toString(), width, "0") is the fixed-width field. */
  lemma {:induction false} PaddedIsFixed(n: nat, width: nat)
    requires 1 <= width && n < Pow10(width)
    ensures PadStart(NatToString(n), width, '0') == FixedDigits(n, width)
  {
    if n < 10 {
      if width > 1 {
        FixedZero(n, width);
      }
    } else {
      assert Pow10(1) == 10;
      assert width > 1;
      DivTenBelow(n, Pow10(width - 1));
      PaddedIsFixed(n / 10, width - 1);
      NatToStringLength(n / 10, width - 1);
      PadStartSnoc(NatToString(n / 10), DigitChar(n % 10), width);
    }
  }

  lemma PadStartSnoc(s: string, d: char, width: nat)
    requires |s| < width
    ensures PadStart(s + [d], width, '0') == PadStart(s, width - 1, '0') + [d]
  {
    if |s| < width - 1 {
      assert Repeat('0', width - |s| - 1) + (s + [d]) == (Repeat('0', width - 1 - |s|) + s) + [d];
    }
  }

  lemma {:induction false} FixedZero(n: nat, width: nat)
    requires n < 10 && width >= 1
    ensures FixedDigits(n, width) == Repeat('0', width - 1) + [DigitChar(n)]
  {
    if width > 1 {
      FixedZero(0, width - 1);
      assert DigitChar(0) == '0';
      assert Repeat('0', width - 1) == Repeat('0', width - 2) + ['0'] by { RepeatSnoc('0', width - 2); }
    }
  }

  lemma {:induction false} RepeatSnoc(c: char, k: nat)
    ensures Repeat(c, k + 1) == Repeat(c, k) + [c]
  {
    if k > 0 { RepeatSnoc(c, k - 1); }
  }

  /** The numeral of n has at most k digits exactly when n < 10^k. */
  lemma {:induction false} NatToStringLength(n: nat, k: nat)
    requires k >= 1
    ensures |NatToString(n)| <= k <==> n < Pow10(k)
  {
    if n >= 10 && k > 1 {
      NatToStringLength(n / 10, k - 1);
    } else if k == 1 {
    } else {
      assert Pow10(k) >= 10 by { Pow10Grows(k); }
    }
  }

  lemma {:induction false} Pow10Grows(k: nat)
    requires k >= 1
    ensures Pow10(k) >= 10
  {
    if k > 1 { Pow10Grows(k - 1); }
  }
}
