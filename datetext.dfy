// Date text: the `YYYY-MM-DD` full-date of section 5.6 of RFC 3339 that
// `toISOString().slice(0, 10)` yields, `new Date("YYYY-MM-DD")` reading it
// back, and the unpadded `Y-M-D` storage key of the habit store.

module DateText {
  import opened Digits
  import opened Calendar
  import opened LexOrder

  datatype Option<T> = None | Some(value: T)

  /** The year of `toISOString()`: four digits for years 0..9999, otherwise a sign
      and at least six digits. */
  function YearField(y: int): string
  {
    if 0 <= y <= 9999 then FixedDigits(y, 4)
    else if y > 9999 then "+" + PadStart(NatToString(y), 6, '0')
    else "-" + PadStart(NatToString(-y), 6, '0')
  }

  /** `d.toISOString()` for a Date at midnight UTC. */
  function IsoText(d: Date): string
    requires ValidDate(d)
  {
    YearField(d.year) + "-" + FixedDigits(d.month, 2) + "-" + FixedDigits(d.day, 2) + "T00:00:00.000Z"
  }

  /** `isoDate(d)` / `fmt(d)`: `d.toISOString().slice(0, 10)`, written field by field
      for four-digit years (IsoDateIsSlice shows the two agree). */
  function IsoDate(d: Date): (s: string)
    requires ValidDate(d)
    ensures |s| == 10
  {
    if 0 <= d.year <= 9999 then
      FixedDigits(d.year, 4) + "-" + FixedDigits(d.month, 2) + "-" + FixedDigits(d.day, 2)
    else WideIsoDate(d)
  }

  /** The first ten characters of `toISOString()` outside four-digit years. */
  function WideIsoDate(d: Date): (s: string)
    requires ValidDate(d) && !(0 <= d.year <= 9999)
    ensures |s| == 10
  {
    Prefix(YearField(d.year) + "-" + FixedDigits(d.month, 2), 10)
  }

  /** The first n characters of s. */
  function Prefix(s: string, n: nat): (r: string)
    requires n <= |s|
    ensures |r| == n
  {
    if n == 0 then [] else Prefix(s, n - 1) + [s[n - 1]]
  }

  lemma {:induction false} PrefixIsSlice(s: string, n: nat)
    requires n <= |s|
    ensures Prefix(s, n) == s[..n]
  {
    if n > 0 {
      PrefixIsSlice(s, n - 1);
      assert s[..n] == s[..n - 1] + [s[n - 1]];
    }
  }

  /** The characters from position lo up to (not including) hi are all digits. */
  predicate DigitsAt(s: string, lo: int, hi: int)
    requires 0 <= lo <= hi <= |s|
  {
    forall i :: lo <= i < hi ==> IsDigit(s[i])
  }

  /** `parseInt` of the digits from position lo up to hi, read in place. */
  function FieldValue(s: string, lo: int, hi: int): nat
    requires 0 <= lo <= hi <= |s| && DigitsAt(s, lo, hi)
    decreases hi - lo
  {
    if hi == lo then 0 else 10 * FieldValue(s, lo, hi - 1) + DigitValue(s[hi - 1])
  }

  /** The text of a full-date: four digits, '-', two digits, '-', two digits. */
  predicate IsFullDateText(s: string)
  {
    |s| == 10 && s[4] == '-' && s[7] == '-' &&
    DigitsAt(s, 0, 4) && DigitsAt(s, 5, 7) && DigitsAt(s, 8, 10)
  }

  /** `new Date(s)` for a date-only string: the day it names, or None for an Invalid Date. */
  function ParseIso(s: string): (r: Option<Date>)
    ensures r.Some? ==> ValidDate(r.value) && 0 <= r.value.year <= 9999
  {
    if !IsFullDateText(s) then None
    else
      var d := Date(FieldValue(s, 0, 4), FieldValue(s, 5, 7), FieldValue(s, 8, 10));
      if ValidDate(d) then
        FieldBound(s, 0, 4);
        assert Pow10(4) == 10000;
        Some(d)
      else None
  }

  /** A full-date text that names a real day. */
  predicate IsDateKey(s: string)
  {
    ParseIso(s).Some?
  }

  /** `dateKey(year, month0, d)`: `${year}-${month0 + 1}-${d}`, with no zero padding. */
  function DateKey(year: int, month0: int, day: int): string
  {
    IntToString(year) + "-" + IntToString(month0 + 1) + "-" + IntToString(day)
  }

  /** The `${y}-${m}-${d}` key rebuilt from parseInt of the three fields of a full-date. */
  function UnpaddedKey(iso: string): string
    requires IsFullDateText(iso)
  {
    NatToString(FieldValue(iso, 0, 4)) + "-" + NatToString(FieldValue(iso, 5, 7)) + "-" +
    NatToString(FieldValue(iso, 8, 10))
  }

  /** `isoToKeyVariants(iso)`: the padded key first, then the unpadded one. */
  function Variants(iso: string): (v: seq<string>)
    requires IsFullDateText(iso)
    ensures |v| == 2 && v[0] == iso
  {
    [iso, UnpaddedKey(iso)]
  }

  // ---------------------------------------------------------------------------
  // The text of a four-digit year

  predicate InIsoYears(d: Date)
  {
    0 <= d.year <= 9999
  }

  /** A field of k digits reads back below 10^k. */
  lemma {:induction false} FieldBound(s: string, lo: int, hi: int)
    requires 0 <= lo <= hi <= |s| && DigitsAt(s, lo, hi)
    ensures FieldValue(s, lo, hi) < Pow10(hi - lo)
    decreases hi - lo
  {
    if hi > lo {
      FieldBound(s, lo, hi - 1);
    }
  }

  /** Reading a field in place is reading its slice. */
  lemma {:induction false} FieldIsParse(s: string, lo: int, hi: int)
    requires 0 <= lo <= hi <= |s|
    ensures DigitsAt(s, lo, hi) <==> AllDigits(s[lo..hi])
    ensures DigitsAt(s, lo, hi) ==> FieldValue(s, lo, hi) == ParseDigits(s[lo..hi])
    decreases hi - lo
  {
    var t := s[lo..hi];
    assert forall i :: 0 <= i < |t| ==> t[i] == s[lo + i];
    if hi > lo {
      FieldIsParse(s, lo, hi - 1);
      assert t[..|t| - 1] == s[lo..hi - 1];
    }
  }

  lemma IsoDateFields(d: Date)
    requires ValidDate(d) && InIsoYears(d)
    ensures IsoDate(d) == FixedDigits(d.year, 4) + "-" + FixedDigits(d.month, 2) + "-" + FixedDigits(d.day, 2)
  {
  }

  /** The full-date is the first ten characters of `toISOString()`, in every year. */
  lemma IsoDateIsSlice(d: Date)
    requires ValidDate(d)
    ensures IsoDate(d) == IsoText(d)[..10]
  {
    if 0 <= d.year <= 9999 {
      var f := FixedDigits(d.year, 4) + "-" + FixedDigits(d.month, 2) + "-" + FixedDigits(d.day, 2);
      assert IsoText(d) == f + "T00:00:00.000Z";
      assert IsoText(d)[..10] == f;
    } else {
      var head := YearField(d.year) + "-" + FixedDigits(d.month, 2);
      PrefixIsSlice(head, 10);
      assert IsoText(d) == head + ("-" + FixedDigits(d.day, 2) + "T00:00:00.000Z");
      assert IsoText(d)[..10] == head[..10];
    }
  }

  lemma IsoDateShape(d: Date)
    requires ValidDate(d) && InIsoYears(d)
    ensures IsFullDateText(IsoDate(d))
    ensures IsoDate(d)[0..4] == FixedDigits(d.year, 4)
    ensures IsoDate(d)[5..7] == FixedDigits(d.month, 2)
    ensures IsoDate(d)[8..10] == FixedDigits(d.day, 2)
  {
    var s := IsoDate(d);
    IsoDateFields(d);
    assert s[0..4] == FixedDigits(d.year, 4);
    assert s[5..7] == FixedDigits(d.month, 2);
    assert s[8..10] == FixedDigits(d.day, 2);
    FieldIsParse(s, 0, 4);
    FieldIsParse(s, 5, 7);
    FieldIsParse(s, 8, 10);
  }

  /** The three fields of a day's full-date read back as its year, month and day. */
  lemma IsoDateFieldValues(d: Date)
    requires ValidDate(d) && InIsoYears(d)
    ensures IsFullDateText(IsoDate(d))
    ensures FieldValue(IsoDate(d), 0, 4) == d.year
    ensures FieldValue(IsoDate(d), 5, 7) == d.month
    ensures FieldValue(IsoDate(d), 8, 10) == d.day
  {
    var s := IsoDate(d);
    IsoDateShape(d);
    FieldIsParse(s, 0, 4);
    FieldIsParse(s, 5, 7);
    FieldIsParse(s, 8, 10);
    assert Pow10(4) == 10000 && Pow10(2) == 100;
    ParseFixedDigits(d.year, 4);
    ParseFixedDigits(d.month, 2);
    ParseFixedDigits(d.day, 2);
  }

  lemma {:induction false} FixedOfParse(t: string)
    requires AllDigits(t)
    ensures FixedDigits(ParseDigits(t), |t|) == t
  {
    if t != [] {
      var p := t[..|t| - 1];
      var n := ParseDigits(t);
      assert n / 10 == ParseDigits(p) && n % 10 == DigitValue(t[|t| - 1]);
      FixedOfParse(p);
      assert DigitChar(n % 10) == t[|t| - 1];
      assert t == p + [t[|t| - 1]];
    }
  }

  /** Reading back the text of a day gives the day. */
  lemma ParseIsoOfIsoDate(d: Date)
    requires ValidDate(d) && InIsoYears(d)
    ensures ParseIso(IsoDate(d)) == Some(d)
  {
    IsoDateFieldValues(d);
  }

  /** A text that reads as a day is the text of that day. */
  lemma IsoDateOfParseIso(s: string)
    requires ParseIso(s).Some?
    ensures IsoDate(ParseIso(s).value) == s
  {
    var d := ParseIso(s).value;
    IsoDateFields(d);
    FieldIsParse(s, 0, 4);
    FieldIsParse(s, 5, 7);
    FieldIsParse(s, 8, 10);
    FixedOfParse(s[0..4]);
    FixedOfParse(s[5..7]);
    FixedOfParse(s[8..10]);
    FullDateSplit(s);
  }

  /** A full-date text is its three fields joined by '-'. */
  lemma FullDateSplit(s: string)
    requires |s| == 10 && s[4] == '-' && s[7] == '-'
    ensures s == s[0..4] + "-" + s[5..7] + "-" + s[8..10]
  {
  }

  lemma IsoDateInjective(a: Date, b: Date)
    requires ValidDate(a) && InIsoYears(a) && ValidDate(b) && InIsoYears(b)
    requires IsoDate(a) == IsoDate(b)
    ensures a == b
  {
    ParseIsoOfIsoDate(a);
    ParseIsoOfIsoDate(b);
  }

  // ---------------------------------------------------------------------------
  // The two spellings of a day's key

  /** The unpadded variant of a day's full-date is the header's `dateKey` of that day. */
  lemma UnpaddedKeyOfIsoDate(d: Date)
    requires ValidDate(d) && InIsoYears(d)
    ensures UnpaddedKey(IsoDate(d)) == DateKey(d.year, d.month - 1, d.day)
  {
    IsoDateFieldValues(d);
  }

  lemma NumeralIsFixed(n: nat, w: nat)
    requires 1 <= w && Pow10(w - 1) <= n < Pow10(w)
    ensures NatToString(n) == FixedDigits(n, w)
  {
    PaddedIsFixed(n, w);
    NatToStringLength(n, w);
    if w > 1 {
      NatToStringLength(n, w - 1);
    }
  }

  /** The two variants of a day's key are the same text exactly when no field of the
      full-date starts with a zero: a year from 1000 on, a month and a day from 10 on. */
  lemma VariantsCoincide(d: Date)
    requires ValidDate(d) && InIsoYears(d)
    ensures IsFullDateText(IsoDate(d))
    ensures Variants(IsoDate(d))[0] == Variants(IsoDate(d))[1] <==>
            d.year >= 1000 && d.month >= 10 && d.day >= 10
  {
    IsoDateShape(d);
    UnpaddedKeyOfIsoDate(d);
    IsoDateFields(d);
    assert Pow10(4) == 10000 && Pow10(3) == 1000 && Pow10(2) == 100 && Pow10(1) == 10;
    var y, m, dd := NatToString(d.year), NatToString(d.month), NatToString(d.day);
    NatToStringLength(d.year, 4);
    NatToStringLength(d.month, 2);
    NatToStringLength(d.day, 2);
    if d.year >= 1000 && d.month >= 10 && d.day >= 10 {
      NumeralIsFixed(d.year, 4);
      NumeralIsFixed(d.month, 2);
      NumeralIsFixed(d.day, 2);
    } else {
      NatToStringLength(d.year, 3);
      NatToStringLength(d.month, 1);
      NatToStringLength(d.day, 1);
      assert |UnpaddedKey(IsoDate(d))| < 10;
    }
  }

  // ---------------------------------------------------------------------------
  // String order of full-dates is the order of days

  lemma SingleCharOrder(x: char, y: char)
    ensures LexLeq([x], [y]) <==> x <= y
  {
    if x == y {
      assert [x][1..] == [];
    }
  }

  lemma {:induction false} FixedDigitsOrder(a: nat, b: nat, w: nat)
    requires a < Pow10(w) && b < Pow10(w)
    ensures LexLeq(FixedDigits(a, w), FixedDigits(b, w)) <==> a <= b
  {
    if w == 0 {
    } else {
      var pa, pb := FixedDigits(a / 10, w - 1), FixedDigits(b / 10, w - 1);
      var ca, cb := DigitChar(a % 10), DigitChar(b % 10);
      assert FixedDigits(a, w) == pa + [ca] && FixedDigits(b, w) == pb + [cb];
      DivTenBelow(a, Pow10(w - 1));
      DivTenBelow(b, Pow10(w - 1));
      if a / 10 == b / 10 {
        LexLeqCommonPrefix(pa, [ca], [cb]);
        SingleCharOrder(ca, cb);
      } else {
        ParseFixedDigits(a / 10, w - 1);
        ParseFixedDigits(b / 10, w - 1);
        assert pa != pb;
        LexLeqDifferentPrefix(pa, pb, [ca], [cb]);
        FixedDigitsOrder(a / 10, b / 10, w - 1);
      }
    }
  }

  /** Compares two texts built from fields of equal widths: the first field that differs
      decides. */
  lemma FieldOrder(p: string, q: string, a: string, b: string)
    requires |p| == |q|
    ensures p != q ==> (LexLeq(p + "-" + a, q + "-" + b) <==> LexLeq(p, q))
    ensures p == q ==> (LexLeq(p + "-" + a, q + "-" + b) <==> LexLeq(a, b))
  {
    assert p + "-" + a == p + ("-" + a) && q + "-" + b == q + ("-" + b);
    if p != q {
      LexLeqDifferentPrefix(p, q, "-" + a, "-" + b);
    } else {
      LexLeqCommonPrefix(p + "-", a, b);
      assert p + "-" + a == (p + "-") + a;
    }
  }

  lemma JoinAssoc(p: string, q: string, r: string)
    ensures p + "-" + q + "-" + r == p + "-" + (q + "-" + r)
  {
  }

  /** Sorting full-dates as strings sorts them chronologically (section 5.1 of RFC 3339). */
  lemma IsoDateOrder(a: Date, b: Date)
    requires ValidDate(a) && InIsoYears(a) && ValidDate(b) && InIsoYears(b)
    ensures LexLeq(IsoDate(a), IsoDate(b)) <==> DayNumber(a) <= DayNumber(b)
  {
    IsoDateFields(a);
    IsoDateFields(b);
    DayNumberOrder(b, a);
    assert Pow10(4) == 10000 && Pow10(2) == 100;
    var ya, yb := FixedDigits(a.year, 4), FixedDigits(b.year, 4);
    var ma, mb := FixedDigits(a.month, 2), FixedDigits(b.month, 2);
    var da, db := FixedDigits(a.day, 2), FixedDigits(b.day, 2);
    FixedDigitsOrder(a.year, b.year, 4);
    FixedDigitsOrder(a.month, b.month, 2);
    FixedDigitsOrder(a.day, b.day, 2);
    ParseFixedDigits(a.year, 4);
    ParseFixedDigits(b.year, 4);
    ParseFixedDigits(a.month, 2);
    ParseFixedDigits(b.month, 2);
    JoinAssoc(ya, ma, da);
    JoinAssoc(yb, mb, db);
    FieldOrder(ya, yb, ma + "-" + da, mb + "-" + db);
    FieldOrder(ma, mb, da, db);
  }

  /** Going back no further than day 0 from a four-digit year stays in four-digit years. */
  lemma WithinIsoYears(base: Date, k: int)
    requires ValidDate(base) && InIsoYears(base) && -DayNumber(base) <= k <= 0
    ensures InIsoYears(AddDays(base, k))
  {
    var d := AddDays(base, k);
    DayNumberSign(d);
    DayNumberOrder(base, d);
  }

  /** Of two days in four-digit years, the earlier one's text sorts strictly first. */
  lemma EarlierTextFirst(a: Date, b: Date)
    requires ValidDate(a) && InIsoYears(a) && ValidDate(b) && InIsoYears(b)
    requires DayNumber(a) < DayNumber(b)
    ensures LexLeq(IsoDate(a), IsoDate(b)) && IsoDate(a) != IsoDate(b)
  {
    IsoDateOrder(a, b);
    if IsoDate(a) == IsoDate(b) {
      IsoDateInjective(a, b);
    }
  }

  /** Going back j days from `end` gives a text that sorts strictly before going back
      fewer days, i. */
  lemma BackDaysTextOrder(end: Date, i: int, j: int)
    requires ValidDate(end) && InIsoYears(end) && 0 <= i < j <= DayNumber(end)
    ensures LexLeq(IsoDate(AddDays(end, -j)), IsoDate(AddDays(end, -i)))
    ensures IsoDate(AddDays(end, -j)) != IsoDate(AddDays(end, -i))
  {
    WithinIsoYears(end, -i);
    WithinIsoYears(end, -j);
    OrderedPair(AddDays(end, -j), AddDays(end, -i));
  }

  lemma OrderedPair(b: Date, a: Date)
    requires ValidDate(a) && InIsoYears(a) && ValidDate(b) && InIsoYears(b)
    requires DayNumber(b) < DayNumber(a)
    ensures LexLeq(IsoDate(b), IsoDate(a)) && IsoDate(b) != IsoDate(a)
  {
    EarlierTextFirst(b, a);
  }

  /** The day the examples of a padded key use, 2024-03-05, is written as a full-date. */
  lemma MarchFifthText()
    ensures IsFullDateText("2024-03-05")
  {
    var t := "2024-03-05";
    assert t[..4] == "2024" && t[5..7] == "03" && t[8..] == "05";
  }
}
