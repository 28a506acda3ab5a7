// The `MM:SS` display both timers share, and JavaScript's remainder
// operator, which keeps the sign of the dividend.

module Clock {
  import opened Digits

  function Abs(a: int): nat
  {
    if a < 0 then -a else a
  }

  /** JavaScript's `a % b` on integers (b != 0): truncated division's remainder, with
      the sign of a. */
  function JsRem(a: int, b: int): (r: int)
    requires b != 0
    ensures Abs(r) < Abs(b)
    ensures a >= 0 ==> r >= 0
    ensures a < 0 ==> r <= 0
  {
    var r := Abs(a) % Abs(b);
    if a < 0 then -r else r
  }

  /** For a non-negative dividend and a positive divisor the remainder is Dafny's; it is
      zero exactly when |b| divides |a|, whatever the signs. */
  lemma JsRemAgrees(a: int, b: int)
    requires b != 0
    ensures a >= 0 && b > 0 ==> JsRem(a, b) == a % b
    ensures JsRem(a, b) == 0 <==> Abs(a) % Abs(b) == 0
  {
  }

  /** `format(s)`: `Math.floor(s / 60)` and `Math.floor(s % 60)`, each as a decimal
      numeral padded on the left with '0' to two characters, joined by ':'. */
  function Format(s: int): (t: string)
  {
    PadStart(IntToString(s / 60), 2, '0') + ":" + PadStart(IntToString(JsRem(s, 60)), 2, '0')
  }

  /** For s >= 0 the display reads back as s: the minutes before the ':' and the two
      seconds digits after it, 00 to 59, give 60 * MM + SS == s. */
  lemma FormatRoundTrip(s: int)
    requires s >= 0
    ensures var t := Format(s);
      |t| >= 5 && t[|t| - 3] == ':' &&
      AllDigits(t[..|t| - 3]) && AllDigits(t[|t| - 2..]) &&
      ParseDigits(t[|t| - 2..]) < 60 &&
      60 * ParseDigits(t[..|t| - 3]) + ParseDigits(t[|t| - 2..]) == s
  {
    var mm, ss := s / 60, s % 60;
    JsRemAgrees(s, 60);
    var m := PadStart(NatToString(mm), 2, '0');
    var c := PadStart(NatToString(ss), 2, '0');
    assert Format(s) == m + ":" + c;
    ParsePadded(mm, 2);
    ParsePadded(ss, 2);
    NatToStringLength(ss, 2);
    assert Pow10(2) == 100;
    SplitAtColon(m, c);
  }

  /** The two fields of `m + ":" + c`, read back from its end. */
  lemma SplitAtColon(m: string, c: string)
    requires |c| == 2
    ensures var t := m + ":" + c;
      |t| >= 3 && t[|t| - 3] == ':' && t[..|t| - 3] == m && t[|t| - 2..] == c
  {
    var t := m + ":" + c;
    assert t[..|t| - 3] == m;
    assert t[|t| - 2..] == c;
  }

  /** The display is exactly five characters, `MM:SS`, for 0 <= s < 6000 (under 100
      minutes); from 100 minutes on the minutes field grows. */
  lemma FormatWidth(s: int)
    requires s >= 0
    ensures |Format(s)| == 5 <==> s < 6000
  {
    JsRemAgrees(s, 60);
    NatToStringLength(s / 60, 2);
    NatToStringLength(s % 60, 2);
    assert Pow10(2) == 100;
  }
}
